/** The part of java.io.File / java.nio.file.Files the three revisions of
    ExtendedFile rely on, as an abstract disk: a map from paths to entries, the
    order in which a directory enumerates its children, and an oracle saying
    which calls of Files.delete fail (an IOException or SecurityException). */
module FileSystem {

  import opened Wrappers

  /** One unit a BufferedReader from Files.newBufferedReader yields: a UTF-16
      code unit of the file decoded as UTF-8, never the end-of-stream marker -1. */
  type CodeUnit = c: int | 0 <= c < 0x1_0000

  type Content = seq<CodeUnit>

  type Name = string

  /** A path is the sequence of its names; `p <= q` (sequence prefix) says that
      q is p or lies below p. */
  type Path = seq<Name>

  datatype Entry = File(content: Content) | Dir

  /** The mutable state: the entries, how many times Files.delete has been
      called, and (for proofs only) the paths removed so far, in order. */
  datatype Disk = Disk(entries: map<Path, Entry>, attempts: nat, removed: seq<Path>)

  /** What does not change: the enumeration order of directory entries, and the
      numbers of the Files.delete calls that fail whatever the entry. */
  datatype Env = Env(order: seq<Path>, faults: set<nat>)

  predicate IsChild(p: Path, q: Path) {
    |q| == |p| + 1 && p <= q
  }

  predicate IsFileAt(entries: map<Path, Entry>, p: Path) {
    p in entries && entries[p].File?
  }

  predicate IsDirAt(entries: map<Path, Entry>, p: Path) {
    p in entries && entries[p].Dir?
  }

  predicate HasChildren(entries: map<Path, Entry>, p: Path) {
    exists q :: q in entries && IsChild(p, q)
  }

  /** p and every entry below it. */
  function Subtree(entries: map<Path, Entry>, p: Path): set<Path> {
    set q | q in entries && p <= q
  }

  predicate NoDup(s: seq<Path>) {
    forall i, j :: 0 <= i < j < |s| ==> s[i] != s[j]
  }

  /** `a` is `b` with some elements left out and the others kept in order. */
  predicate Subsequence(a: seq<Path>, b: seq<Path>)
    decreases |b|
  {
    a == [] || (b != [] && if a[0] == b[0] then Subsequence(a[1..], b[1..]) else Subsequence(a, b[1..]))
  }

  /** File.listFiles(): the children of p that exist, each once, in the
      disk's enumeration order (Java promises no particular order, so the
      order is part of the environment; ListingInOrder states it). */
  function Listing(order: seq<Path>, entries: map<Path, Entry>, p: Path): (kids: seq<Path>)
    ensures forall q :: q in kids <==> q in order && q in entries && IsChild(p, q)
    ensures NoDup(order) ==> NoDup(kids)
  {
    if order == [] then []
    else
      var rest := Listing(order[1..], entries, p);
      assert forall q :: q in order <==> q == order[0] || q in order[1..];
      if order[0] in entries && IsChild(p, order[0]) then [order[0]] + rest else rest
  }

  /** The listing keeps the enumeration order: it is the order with the
      entries that are not existing children of p left out. */
  lemma {:induction false} ListingInOrder(order: seq<Path>, entries: map<Path, Entry>, p: Path)
    ensures Subsequence(Listing(order, entries, p), order)
    decreases |order|
  {
    if order != [] {
      var rest := Listing(order[1..], entries, p);
      ListingInOrder(order[1..], entries, p);
      if order[0] in entries && IsChild(p, order[0]) {
        assert ([order[0]] + rest)[1..] == rest;
      } else {
        assert rest != [] ==> rest[0] in rest && rest[0] != order[0];
      }
    }
  }

  /** Files.delete(p) with its exceptions caught as `false`: it removes an
      existing file or empty directory, unless this call is one the oracle
      makes fail. Every call counts, successful or not. */
  function TryDelete(env: Env, d: Disk, p: Path): (bool, Disk) {
    if p in d.entries && !HasChildren(d.entries, p) && d.attempts !in env.faults then
      (true, Disk(d.entries - {p}, d.attempts + 1, d.removed + [p]))
    else
      (false, d.(attempts := d.attempts + 1))
  }

  /** Every removal so far came after the removal of everything below it. */
  predicate PostOrder(removed: seq<Path>) {
    forall i, j :: 0 <= i < j < |removed| ==> !(removed[i] < removed[j])
  }

  /** Every entry has a name, and each entry below the top level sits in an
      existing directory. */
  predicate ParentsAreDirs(entries: map<Path, Entry>) {
    forall q :: q in entries ==> |q| > 0 && (|q| > 1 ==> IsDirAt(entries, q[..|q| - 1]))
  }

  /** Nothing lives at or below a path that has been removed. */
  predicate NoneUnderRemoved(removed: seq<Path>, entries: map<Path, Entry>) {
    forall i, q :: 0 <= i < |removed| && q in entries ==> !(removed[i] <= q)
  }

  /** A well-formed disk: parents are directories; the enumeration order lists
      each entry once; nothing lives at or below a removed path; removals so
      far were post-order. */
  predicate Wf(env: Env, d: Disk) {
    ParentsAreDirs(d.entries) &&
    (forall q :: q in d.entries ==> q in env.order) &&
    NoDup(env.order) &&
    NoneUnderRemoved(d.removed, d.entries) &&
    PostOrder(d.removed)
  }

  /** What a recursive delete of p may do: drop entries at or below p, and
      nothing else; the call counter and the removal log only grow. */
  predicate Confined(d: Disk, d': Disk, p: Path) {
    d'.entries.Keys <= d.entries.Keys &&
    (forall q :: q in d'.entries ==> d'.entries[q] == d.entries[q]) &&
    (forall q :: q in d.entries && !(p <= q) ==> q in d'.entries) &&
    d.attempts <= d'.attempts &&
    d.removed <= d'.removed
  }

  lemma ConfinedTrans(d1: Disk, d2: Disk, d3: Disk, p: Path, q: Path)
    requires Confined(d1, d2, p) && Confined(d2, d3, q) && q <= p
    ensures Confined(d1, d3, q)
  {
    forall r | r in d1.entries && p <= r ensures q <= r {
      PrefixTrans(q, p, r);
    }
  }

  lemma PrefixTrans(p: Path, c: Path, q: Path)
    requires p <= c && c <= q
    ensures p <= q
  {
    assert q[..|p|] == c[..|p|];
  }

  /** The subtree of a child is strictly inside the subtree of its parent. */
  lemma SubtreeOfChild(entries: map<Path, Entry>, p: Path, c: Path)
    requires p in entries && p <= c && p != c
    ensures Subtree(entries, c) < Subtree(entries, p)
  {
    forall q | q in Subtree(entries, c) ensures q in Subtree(entries, p) {
      PrefixTrans(p, c, q);
    }
    assert p !in Subtree(entries, c);
  }

  lemma SubtreeShrinks(d: Disk, d': Disk, p: Path, q: Path)
    requires Confined(d, d', p)
    ensures Subtree(d'.entries, q) <= Subtree(d.entries, q)
  {
  }

  /** Under well-formedness, a path with no children has no descendants. */
  lemma {:induction false} NoDescendants(env: Env, d: Disk, p: Path, q: Path)
    requires Wf(env, d)
    requires !HasChildren(d.entries, p)
    requires p < q
    ensures q !in d.entries
    decreases |q|
  {
    if |q| == |p| + 1 {
      assert IsChild(p, q);
    } else {
      var up := q[..|q| - 1];
      assert up[..|p|] == q[..|p|];
      NoDescendants(env, d, p, up);
    }
  }

  /** Every ancestor of an entry is itself an entry. */
  lemma {:induction false} AncestorExists(entries: map<Path, Entry>, q: Path, n: nat)
    requires ParentsAreDirs(entries) && q in entries && 1 <= n <= |q|
    ensures q[..n] in entries
    decreases |q| - n
  {
    if n < |q| {
      var up := q[..|q| - 1];
      assert IsDirAt(entries, up);
      AncestorExists(entries, up, n);
      assert up[..n] == q[..n];
    } else {
      assert q[..n] == q;
    }
  }

  /** A file has no children. */
  lemma FileHasNoChildren(entries: map<Path, Entry>, c: Path)
    requires ParentsAreDirs(entries)
    ensures IsFileAt(entries, c) ==> !HasChildren(entries, c)
  {
    if HasChildren(entries, c) {
      var q :| q in entries && IsChild(c, q);
      assert q[..|q| - 1] == c;
    }
  }

  lemma DeleteKeepsParents(entries: map<Path, Entry>, p: Path)
    requires ParentsAreDirs(entries) && !HasChildren(entries, p)
    ensures ParentsAreDirs(entries - {p})
  {
    forall q | q in entries - {p} ensures |q| > 0 && (|q| > 1 ==> IsDirAt(entries - {p}, q[..|q| - 1])) {
      assert !IsChild(p, q);
    }
  }

  lemma DeleteKeepsNoneUnderRemoved(env: Env, d: Disk, p: Path)
    requires Wf(env, d) && p in d.entries && !HasChildren(d.entries, p)
    ensures NoneUnderRemoved(d.removed + [p], d.entries - {p})
  {
    var removed, entries := d.removed + [p], d.entries - {p};
    forall i, q | 0 <= i < |removed| && q in entries ensures !(removed[i] <= q) {
      if i == |d.removed| && p < q {
        NoDescendants(env, d, p, q);
      }
    }
  }

  lemma DeleteKeepsPostOrder(env: Env, d: Disk, p: Path)
    requires Wf(env, d) && p in d.entries
    ensures PostOrder(d.removed + [p])
  {
    var removed := d.removed + [p];
    forall i, j | 0 <= i < j < |removed| ensures !(removed[i] < removed[j]) {
      if j == |d.removed| {
        assert removed[i] == d.removed[i];
      }
    }
  }

  /** Files.delete only ever touches p, and keeps the disk well formed; in
      particular the removal log stays post-order: a directory can only go
      once everything in it has. */
  lemma TryDeleteKeepsWf(env: Env, d: Disk, p: Path)
    ensures Confined(d, TryDelete(env, d, p).1, p)
    ensures Wf(env, d) ==> Wf(env, TryDelete(env, d, p).1)
  {
    if TryDelete(env, d, p).0 && Wf(env, d) {
      DeleteKeepsParents(d.entries, p);
      DeleteKeepsNoneUnderRemoved(env, d, p);
      DeleteKeepsPostOrder(env, d, p);
    }
  }

  /** On a well-formed disk, a successful Files.delete(p) leaves nothing at or
      below p. */
  lemma TryDeleteClearsSubtree(env: Env, d: Disk, p: Path)
    ensures Wf(env, d) && TryDelete(env, d, p).0 ==> Subtree(TryDelete(env, d, p).1.entries, p) == {}
  {
    if Wf(env, d) && TryDelete(env, d, p).0 {
      forall q | q in d.entries && p < q ensures false {
        NoDescendants(env, d, p, q);
      }
    }
  }

  /** Some path of kids[i..] is at or above q. */
  predicate UnderAny(kids: seq<Path>, i: nat, q: Path) {
    exists j :: i <= j < |kids| && kids[j] <= q
  }

  /** Every path strictly below p is at or below one of p's children. */
  lemma BelowIsUnderChild(entries: map<Path, Entry>, kids: seq<Path>, p: Path, q: Path)
    requires ParentsAreDirs(entries)
    requires forall c :: c in entries && IsChild(p, c) ==> c in kids
    requires q in entries && p < q
    ensures UnderAny(kids, 0, q)
  {
    AncestorExists(entries, q, |p| + 1);
    var c := q[..|p| + 1];
    assert IsChild(p, c) && c in kids;
    var j :| 0 <= j < |kids| && kids[j] == c;
  }

  /** Whatever is at or below a child of p is strictly below p. */
  lemma UnderChildIsBelow(kids: seq<Path>, p: Path, q: Path)
    requires forall k :: k in kids ==> IsChild(p, k)
    ensures UnderAny(kids, 0, q) ==> p < q
  {
    if UnderAny(kids, 0, q) {
      var j :| 0 <= j < |kids| && kids[j] <= q;
      assert kids[j] in kids;
      PrefixTrans(p, kids[j], q);
    }
  }

  /** Removing the subtree of every child of p leaves p without children, and
      leaves everything outside p's subtree. */
  lemma ClearedChildren(entries: map<Path, Entry>, e1: map<Path, Entry>, kids: seq<Path>, p: Path)
    requires ParentsAreDirs(entries)
    requires forall c :: c in entries && IsChild(p, c) ==> c in kids
    requires forall k :: k in kids ==> IsChild(p, k)
    requires forall q :: q in e1 <==> q in entries && !UnderAny(kids, 0, q)
    ensures !HasChildren(e1, p)
    ensures forall q :: q in e1 && q != p <==> q in entries && !(p <= q)
  {
    forall q ensures q in e1 && q != p <==> q in entries && !(p <= q) {
      UnderChildIsBelow(kids, p, q);
      if q in entries && p < q {
        BelowIsUnderChild(entries, kids, p, q);
      }
    }
    forall q | q in entries && IsChild(p, q) ensures q !in e1 {
      BelowIsUnderChild(entries, kids, p, q);
    }
  }

  /** UnderAny from i is the i-th path or UnderAny from i + 1. */
  lemma UnderAnySplit(kids: seq<Path>, i: nat, q: Path)
    requires i < |kids|
    ensures UnderAny(kids, i, q) <==> kids[i] <= q || UnderAny(kids, i + 1, q)
  {
    if UnderAny(kids, i, q) && !(kids[i] <= q) {
      var j :| i <= j < |kids| && kids[j] <= q;
      assert j > i;
    }
  }

  /** Removing the subtree of one child leaves its distinct siblings. */
  lemma SiblingsSurvive(entries: map<Path, Entry>, e1: map<Path, Entry>, p: Path, kids: seq<Path>, i: nat)
    requires i < |kids| && NoDup(kids)
    requires forall k :: k in kids ==> IsChild(p, k)
    requires forall j :: i <= j < |kids| ==> kids[j] in entries
    requires forall q :: q in e1 <==> q in entries && !(kids[i] <= q)
    ensures forall j :: i + 1 <= j < |kids| ==> kids[j] in e1
  {
    forall j | i < j < |kids| ensures kids[j] in e1 {
      assert kids[j] in kids && kids[i] in kids;
      assert kids[j] != kids[i];
    }
  }

  /** Paths at or below two distinct children of p are distinct. */
  lemma SiblingsDisjoint(p: Path, c1: Path, c2: Path, q: Path)
    requires IsChild(p, c1) && IsChild(p, c2) && c1 != c2 && c2 <= q
    ensures !(c1 <= q)
  {
    assert |c1| == |c2| && q[..|c2|] == c2;
  }

  /** BufferedReader.read() at position pos: the unit there, or -1 at the end. */
  function Read(s: Content, pos: nat): (r: int)
    ensures r == -1 <==> pos >= |s|
    ensures pos < |s| ==> r == s[pos]
  {
    if pos < |s| then s[pos] else -1
  }

  /** The live filesystem: the disk's fields, updated in place by Delete. */
  class FileSystem {
    var entries: map<Path, Entry>
    var attempts: nat
    ghost var removed: seq<Path>
    const order: seq<Path>
    const faults: set<nat>

    ghost function State(): Disk
      reads this
    {
      Disk(entries, attempts, removed)
    }

    function Environment(): Env {
      Env(order, faults)
    }

    constructor (entries0: map<Path, Entry>, order0: seq<Path>, faults0: set<nat>)
      ensures State() == Disk(entries0, 0, [])
      ensures Environment() == Env(order0, faults0)
    {
      entries, attempts, removed := entries0, 0, [];
      order, faults := order0, faults0;
    }

    /** File.exists() */
    function Exists(p: Path): bool
      reads this
    {
      p in entries
    }

    /** File.isFile() */
    function IsFile(p: Path): bool
      reads this
    {
      IsFileAt(entries, p)
    }

    /** File.isDirectory() */
    function IsDirectory(p: Path): bool
      reads this
    {
      IsDirAt(entries, p)
    }

    /** File.listFiles(): the children of a directory; None (null) otherwise. */
    function ListFiles(p: Path): (r: Option<seq<Path>>)
      reads this
    {
      if IsDirAt(entries, p) then Some(Listing(order, entries, p)) else None
    }

    /** Files.delete(p), with IOException and SecurityException caught as false. */
    method Delete(p: Path) returns (ok: bool)
      modifies this
      ensures (ok, State()) == TryDelete(Environment(), old(State()), p)
    {
      if p in entries && !HasChildren(entries, p) && attempts !in faults {
        entries, removed := entries - {p}, removed + [p];
        ok := true;
      } else {
        ok := false;
      }
      attempts := attempts + 1;
    }
  }

}
