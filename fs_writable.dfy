/** What `FileSystem::makeWritable($p, $dirMode, $fileMode)` does to a
    subtree: every file gets `fileMode`, every directory `dirMode`; a link
    (neither file nor directory), a refused `chmod` or a directory that cannot
    be opened for listing raises. */
module FsWritable {
  import opened FsTree

  /** The node after its `chmod`: only the mode changes. */
  function Chmodded(n: Node, dirMode: int, fileMode: int): (r: Node)
    ensures r.File? <==> n.File?
    ensures r.Dir? <==> n.Dir?
    ensures r.File? ==> r.size == n.size && r.mode == fileMode
    ensures r.Dir? ==> r.mode == dirMode
  {
    match n
    case File(size, _) => File(size, fileMode)
    case Dir(_) => Dir(dirMode)
    case Link => Link
  }

  /** `m1` has the keys of `m0`; each node is as it was or, at or below `p`, `chmod`-ed. */
  ghost predicate Rewritten(m0: map<Path, Node>, m1: map<Path, Node>, p: Path, dirMode: int, fileMode: int)
  {
    && (forall q :: q in m0 <==> q in m1)
    && (forall q :: q in m0 ==> m1[q] == m0[q] || (IsPrefix(p, q) && m1[q] == Chmodded(m0[q], dirMode, fileMode)))
  }

  /** `m1` is `m0` with every node at or below `p` `chmod`-ed and nothing else changed. */
  ghost predicate Written(m0: map<Path, Node>, m1: map<Path, Node>, p: Path, dirMode: int, fileMode: int)
  {
    && (forall q :: q in m0 <==> q in m1)
    && (forall q :: q in m0 ==> m1[q] == if IsPrefix(p, q) then Chmodded(m0[q], dirMode, fileMode) else m0[q])
  }

  /** `makeWritable` gets through the entry `q`: it is no link, its `chmod`
      is allowed and, for a directory, so is opening it. */
  ghost predicate WritableEntry(m: map<Path, Node>, faults: set<Call>, q: Path)
    requires q in m
  {
    !m[q].Link? && !Refused(faults, Chmod, q) && (m[q].Dir? ==> !Refused(faults, OpenDir, q))
  }

  /** `makeWritable` on `p` succeeds: `p` exists, and it gets through every
      entry at or below it. */
  ghost predicate Writable(m: map<Path, Node>, faults: set<Call>, p: Path)
  {
    && p in m
    && forall q :: q in m && IsPrefix(p, q) ==> WritableEntry(m, faults, q)
  }

  /** `e` names a genuine cause of failure at or below `p`. */
  ghost predicate Blame(m: map<Path, Node>, faults: set<Call>, p: Path, dirMode: int, fileMode: int, e: FsError)
  {
    match e
    case NotFound(q) => (q == p && q !in m) || (IsPrefix(p, q) && q in m && m[q].Link?)
    case ChmodFailed(q, mode) => mode == fileMode && IsPrefix(p, q) && IsFileIn(m, q) && Refused(faults, Chmod, q)
    case ChmodDirFailed(q, mode) => mode == dirMode && IsPrefix(p, q) && IsDirIn(m, q) && Refused(faults, Chmod, q)
    case CannotOpenDir(q) => IsPrefix(p, q) && IsDirIn(m, q) && Refused(faults, OpenDir, q)
    case _ => false
  }

  /** A blamed entry rules success out. */
  lemma BlameNotWritable(m: map<Path, Node>, faults: set<Call>, p: Path, dirMode: int, fileMode: int, e: FsError)
    requires Blame(m, faults, p, dirMode, fileMode, e)
    ensures !Writable(m, faults, p)
  {
  }

  /** Blame below a child `c` of `p`, in a map that agrees on the subtree of `c`,
      is blame below `p`. */
  lemma BlameLifts(m0: map<Path, Node>, m: map<Path, Node>, faults: set<Call>, p: Path, c: Path,
                   dirMode: int, fileMode: int, e: FsError)
    requires IsStrictPrefix(p, c) && c in m
    requires forall s :: IsPrefix(c, s) ==> (s in m <==> s in m0)
    requires forall s :: s in m && IsPrefix(c, s) ==> m[s] == m0[s]
    requires Blame(m, faults, c, dirMode, fileMode, e)
    ensures Blame(m0, faults, p, dirMode, fileMode, e)
  {
    match e
    case NotFound(q) => PrefixTrans(p, c, q);
    case ChmodFailed(q, _) => PrefixTrans(p, c, q);
    case ChmodDirFailed(q, _) => PrefixTrans(p, c, q);
    case CannotOpenDir(q) => PrefixTrans(p, c, q);
  }

  /** Changing modes only keeps a tree valid. */
  lemma RewrittenValid(m0: map<Path, Node>, m1: map<Path, Node>, p: Path, dirMode: int, fileMode: int)
    requires ValidTree(m0) && Rewritten(m0, m1, p, dirMode, fileMode)
    ensures ValidTree(m1)
  {
    forall q, k | q in m1 && 0 <= k < |q| ensures q[..k] in m1 && m1[q[..k]].Dir? {
      assert q[..k] in m0;
    }
  }
}
