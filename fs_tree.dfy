/** The abstract filesystem the tree operations of `FileSystem` act on: a map
    from paths (sequences of segments, the root being `[]`) to nodes. */
module FsTree {

  type Path = seq<string>

  /** A regular file, a directory, or a dangling symbolic link: its target
      does not exist, so `is_file`, `is_dir` and `file_exists`, which follow
      links, are false for it and only `is_link` holds. */
  datatype Node = File(size: nat, mode: int) | Dir(mode: int) | Link

  /** The host calls that can be refused; `OpenDir` is the `opendir` behind
      every directory iterator, which throws when it is refused. */
  datatype Op = Unlink | Rmdir | Mkdir | Chmod | Rename | OpenRead | OpenWrite | StreamCopy | OpenDir

  datatype Call = Call(op: Op, path: Path)

  /** The exceptions the operations raise (their messages are not modelled). */
  datatype FsError =
    | NotFound(path: Path)
    | AlreadyExists(path: Path)
    | MkdirFailed(path: Path, mode: int)
    | CopyFailed(origin: Path, target: Path)
    | DeleteFailed(path: Path)
    | DeleteDirFailed(path: Path)
    | RenameFailed(origin: Path, target: Path)
    | ChmodFailed(path: Path, mode: int)
    | ChmodDirFailed(path: Path, mode: int)
    | NotADirectory(path: Path)
    | CannotOpenDir(path: Path)

  /** The default modes: `0777` for directories, `0666` for files. */
  const DirMode: int := 0x1FF
  const FileMode: int := 0x1B6

  datatype Outcome = Done | Failed(error: FsError)

  datatype Result<T> = Ok(value: T) | Err(error: FsError)

  predicate IsPrefix(p: Path, q: Path)
  {
    |p| <= |q| && q[..|p|] == p
  }

  predicate IsStrictPrefix(p: Path, q: Path)
  {
    |p| < |q| && q[..|p|] == p
  }

  /** `dirname`, on segment paths: the root is its own parent. */
  function Parent(p: Path): (r: Path)
    ensures p != [] ==> |r| + 1 == |p| && IsStrictPrefix(r, p)
  {
    if p == [] then [] else p[..|p| - 1]
  }

  /** Neither path lies inside the other. */
  predicate Disjoint(p: Path, q: Path)
  {
    !IsPrefix(p, q) && !IsPrefix(q, p)
  }

  /** A well-formed tree: the root is a directory and every proper prefix of
      an entry is a directory entry. */
  ghost predicate ValidTree(m: map<Path, Node>)
  {
    && [] in m && m[[]].Dir?
    && forall q, k {:trigger q[..k] in m} :: q in m && 0 <= k < |q| ==> q[..k] in m && m[q[..k]].Dir?
  }

  /** `file_exists`. */
  predicate Exists(m: map<Path, Node>, p: Path)
  {
    p in m && !m[p].Link?
  }

  /** `is_dir`. */
  predicate IsDirIn(m: map<Path, Node>, p: Path)
  {
    p in m && m[p].Dir?
  }

  /** `is_file`. */
  predicate IsFileIn(m: map<Path, Node>, p: Path)
  {
    p in m && m[p].File?
  }

  /** `p` and everything below it. */
  ghost function Subtree(m: map<Path, Node>, p: Path): set<Path>
  {
    set q | q in m && IsPrefix(p, q)
  }

  /** The entries a directory iterator over `p` yields. */
  function Children(m: map<Path, Node>, p: Path): (r: set<Path>)
    ensures forall c :: c in r ==> c in m && IsStrictPrefix(p, c) && |c| == |p| + 1
  {
    set q | q in m && |q| == |p| + 1 && q[..|p|] == p
  }

  /** `q` lies below one of the children of `p` collected in `done`. */
  ghost predicate InDone(q: Path, p: Path, done: set<Path>)
  {
    |q| > |p| && q[..|p| + 1] in done
  }

  /** `m1` is `m0` with some entries of the subtree at `p` removed. */
  ghost predicate Shrunk(m0: map<Path, Node>, m1: map<Path, Node>, p: Path)
  {
    && (forall q :: q in m1 ==> q in m0 && m1[q] == m0[q])
    && (forall q :: q in m0 && !IsPrefix(p, q) ==> q in m1)
  }

  /** The host refuses `op` on `p` when the call is among `faults`; the root
      can never be removed or moved. */
  predicate Refused(faults: set<Call>, op: Op, p: Path)
  {
    Call(op, p) in faults || (p == [] && (op == Rmdir || op == Rename))
  }

  /** The host call that removes a node: `unlink` for files and links,
      `rmdir` for directories. */
  function RemoveOp(n: Node): Op
  {
    if n.Dir? then Rmdir else Unlink
  }

  /** The path of the `i`-th call (the trace predicates below are triggered on
      it, so that their instances arise only where a proof asks for them). */
  ghost function PathOf(cs: seq<Call>, i: int): Path
    requires 0 <= i < |cs|
  {
    cs[i].path
  }

  ghost function OpOf(cs: seq<Call>, i: int): Op
    requires 0 <= i < |cs|
  {
    cs[i].op
  }

  ghost predicate Under(p: Path, q: Path, strict: bool)
  {
    if strict then IsStrictPrefix(p, q) else IsPrefix(p, q)
  }

  /** Every call in `cs` is one of `ops` on a path at (unless `strict`) or below `p`. */
  ghost predicate CallsUnder(cs: seq<Call>, ops: set<Op>, p: Path, strict: bool)
  {
    forall i {:trigger PathOf(cs, i)} :: 0 <= i < |cs| ==> OpOf(cs, i) in ops && Under(p, PathOf(cs, i), strict)
  }

  /** Every call in `cs` is a removal of a path at or below `p`. */
  ghost predicate RemovalsUnder(cs: seq<Call>, p: Path, strict: bool)
  {
    CallsUnder(cs, {Unlink, Rmdir}, p, strict)
  }

  /** Every call in `cs` is a `chmod` of a path at or below `p`. */
  ghost predicate ChmodsUnder(cs: seq<Call>, p: Path, strict: bool)
  {
    CallsUnder(cs, {Chmod}, p, strict)
  }

  /** No call on a path comes after a call on one of its ancestors. */
  ghost predicate ChildrenFirst(cs: seq<Call>)
  {
    forall i, j {:trigger PathOf(cs, i), PathOf(cs, j)} :: 0 <= i < j < |cs| ==>
      !IsStrictPrefix(PathOf(cs, i), PathOf(cs, j))
  }

  /** Every call in `cs` lies below one of the children of `p` in `done`. */
  ghost predicate CallsInDone(cs: seq<Call>, p: Path, done: set<Path>)
  {
    forall i {:trigger PathOf(cs, i)} :: 0 <= i < |cs| ==> InDone(PathOf(cs, i), p, done)
  }

  lemma PrefixTrans(a: Path, b: Path, c: Path)
    requires IsPrefix(a, b) && IsPrefix(b, c)
    ensures IsPrefix(a, c)
  {
    assert c[..|b|][..|a|] == c[..|a|];
  }

  /** Appending the calls made below a fresh child keeps the children-first order. */
  lemma {:induction false} ChildrenFirstAppend(a: seq<Call>, s: seq<Call>, p: Path, done: set<Path>, c: Path)
    requires ChildrenFirst(a) && ChildrenFirst(s)
    requires CallsInDone(a, p, done)
    requires |c| == |p| + 1 && c !in done
    requires forall j {:trigger PathOf(s, j)} :: 0 <= j < |s| ==> IsPrefix(c, PathOf(s, j))
    ensures ChildrenFirst(a + s)
    ensures CallsInDone(a + s, p, done + {c})
  {
    var cs := a + s;
    forall i, j | 0 <= i < j < |cs| ensures !IsStrictPrefix(PathOf(cs, i), PathOf(cs, j)) {
      if i < |a| && j >= |a| {
        var x, y := PathOf(cs, i), PathOf(cs, j);
        assert x == PathOf(a, i) && y == PathOf(s, j - |a|);
        assert x[..|p| + 1] in done;
        assert y[..|c|] == c;
        StrictPrefixAgrees(x, y, |p| + 1);
      } else if j < |a| {
        assert PathOf(cs, i) == PathOf(a, i) && PathOf(cs, j) == PathOf(a, j);
      } else {
        assert PathOf(cs, i) == PathOf(s, i - |a|) && PathOf(cs, j) == PathOf(s, j - |a|);
      }
    }
    forall i | 0 <= i < |cs| ensures InDone(PathOf(cs, i), p, done + {c}) {
      if i >= |a| {
        var y := PathOf(s, i - |a|);
        assert PathOf(cs, i) == y;
        assert y[..|c|] == c;
        assert y[..|p| + 1] == c;
      } else {
        assert PathOf(cs, i) == PathOf(a, i);
      }
    }
  }

  lemma StrictPrefixAgrees(x: Path, y: Path, n: nat)
    requires n <= |x|
    ensures IsStrictPrefix(x, y) ==> x[..n] == y[..n]
  {
    if IsStrictPrefix(x, y) {
      assert y[..|x|][..n] == y[..n];
    }
  }

  /** A call on `p` after calls strictly below `p` keeps the children-first order. */
  lemma ChildrenFirstThenParent(a: seq<Call>, x: Call)
    requires ChildrenFirst(a)
    requires forall i {:trigger PathOf(a, i)} :: 0 <= i < |a| ==> IsStrictPrefix(x.path, PathOf(a, i))
    ensures ChildrenFirst(a + [x])
  {
    var cs := a + [x];
    forall i, j | 0 <= i < j < |cs| ensures !IsStrictPrefix(PathOf(cs, i), PathOf(cs, j)) {
      if j < |a| {
        assert PathOf(cs, i) == PathOf(a, i) && PathOf(cs, j) == PathOf(a, j);
      } else {
        assert PathOf(cs, i) == PathOf(a, i) && PathOf(cs, j) == x.path;
      }
    }
  }

  /** Entries below done children of `p` lie strictly below `p`. */
  lemma InDoneBelow(q: Path, p: Path, done: set<Path>)
    requires InDone(q, p, done)
    requires forall c :: c in done ==> |c| == |p| + 1 && IsStrictPrefix(p, c)
    ensures IsStrictPrefix(p, q)
  {
    assert q[..|p| + 1][..|p|] == q[..|p|];
  }

  /** A path at or below `p` is `p` itself or lies strictly below it. */
  lemma PrefixCases(p: Path, q: Path)
    ensures IsPrefix(p, q) <==> q == p || IsStrictPrefix(p, q)
  {
    if IsPrefix(p, q) && |q| == |p| {
      assert q == q[..|p|];
    }
  }

  /** In a valid tree, the child of `p` on the way to `q` is an entry and a child of `p`. */
  lemma ChildOnTheWay(m: map<Path, Node>, p: Path, q: Path)
    requires ValidTree(m) && q in m && IsStrictPrefix(p, q)
    ensures q[..|p| + 1] in Children(m, p)
    ensures IsPrefix(q[..|p| + 1], q)
  {
    var c := q[..|p| + 1];
    assert c[..|p|] == q[..|p|] == p;
    if |p| + 1 == |q| {
      assert c == q;
    }
    assert c in m;
  }

  /** A file or link has nothing below it. */
  lemma NothingBelowLeaf(m: map<Path, Node>, p: Path)
    requires ValidTree(m) && p in m && !m[p].Dir?
    ensures forall q :: q in m ==> !IsStrictPrefix(p, q)
  {
  }

  /** Removing an entry with nothing below it keeps the tree valid. */
  lemma RemoveLeafValid(m: map<Path, Node>, p: Path)
    requires ValidTree(m) && p != []
    requires forall q :: q in m ==> !IsStrictPrefix(p, q)
    ensures ValidTree(m - {p})
  {
    var m' := m - {p};
    forall q, k | q in m' && 0 <= k < |q| ensures q[..k] in m' && m'[q[..k]].Dir? {
      assert q[..k] in m && m[q[..k]].Dir?;
    }
  }

  /** A recursion into a child of `p` works on a strictly smaller subtree. */
  lemma SubtreeShrinks(m0: map<Path, Node>, m: map<Path, Node>, p: Path, c: Path)
    requires p in m0 && IsStrictPrefix(p, c)
    requires forall q :: q in m ==> q in m0
    ensures Subtree(m, c) < Subtree(m0, p)
  {
    forall q | q in Subtree(m, c) ensures q in Subtree(m0, p) {
      PrefixTrans(p, c, q);
    }
    assert p in Subtree(m0, p) && p !in Subtree(m, c);
  }

  /** What the loop over the children of `p` keeps: entries are only removed,
      and only below children already visited. */
  ghost predicate ClearedUpTo(m0: map<Path, Node>, m: map<Path, Node>, p: Path, done: set<Path>)
  {
    && (forall c :: c in done ==> |c| == |p| + 1 && IsStrictPrefix(p, c))
    && (forall q :: q in m ==> q in m0 && m[q] == m0[q])
    && (forall q :: q in m0 && !InDone(q, p, done) ==> q in m)
  }

  lemma ClearedShrunk(m0: map<Path, Node>, m: map<Path, Node>, p: Path, done: set<Path>)
    requires ClearedUpTo(m0, m, p, done)
    ensures Shrunk(m0, m, p)
  {
    forall q | q in m0 && !IsPrefix(p, q) ensures q in m {
      if InDone(q, p, done) {
        InDoneBelow(q, p, done);
      }
    }
  }

  /** Visiting one more child `c` of `p`, whose recursion removed entries below `c` only. */
  lemma ClearedStep(m0: map<Path, Node>, before: map<Path, Node>, after: map<Path, Node>,
                    p: Path, done: set<Path>, c: Path)
    requires ClearedUpTo(m0, before, p, done)
    requires IsStrictPrefix(p, c) && |c| == |p| + 1
    requires Shrunk(before, after, c)
    ensures ClearedUpTo(m0, after, p, done + {c})
  {
    forall q | q in m0 && !InDone(q, p, done + {c}) ensures q in after {
      assert q in before;
    }
  }

  /** After a visit that removed everything below `c`, nothing below `c` is left. */
  lemma ClearedGone(m: map<Path, Node>, p: Path, done: set<Path>, c: Path)
    requires forall q :: q in m ==> !InDone(q, p, done)
    requires forall q :: q in m ==> !IsPrefix(c, q)
    requires |c| == |p| + 1
    ensures forall q :: q in m ==> !InDone(q, p, done + {c})
  {
    forall q | q in m ensures !InDone(q, p, done + {c}) {
      if |q| > |p| && q[..|p| + 1] == c {
        assert IsPrefix(c, q);
      }
    }
  }

  /** Removing `p` when nothing is left below it leaves nothing at or below it. */
  lemma NothingAtOrBelow(m: map<Path, Node>, p: Path)
    requires p !in m
    requires forall q :: q in m ==> !IsStrictPrefix(p, q)
    ensures forall q :: q in m ==> !IsPrefix(p, q)
  {
    forall q | q in m ensures !IsPrefix(p, q) {
      if |q| == |p| {
        assert q == q[..|p|];
      }
    }
  }

  /** A path missing from a valid tree has nothing below it. */
  lemma MissingHasNoSubtree(m: map<Path, Node>, p: Path)
    requires ValidTree(m) && p !in m
    ensures forall q :: q in m ==> !IsPrefix(p, q)
  {
    forall q | q in m ensures !IsStrictPrefix(p, q) {
      if |p| < |q| {
        assert q[..|p|] in m;
      }
    }
    NothingAtOrBelow(m, p);
  }

  /** A call on `p` after calls strictly below it: all at or below `p`. */
  lemma CallsThenParent(a: seq<Call>, ops: set<Op>, x: Call)
    requires CallsUnder(a, ops, x.path, true) && x.op in ops
    ensures CallsUnder(a + [x], ops, x.path, false)
  {
    var cs := a + [x];
    forall i | 0 <= i < |cs| ensures OpOf(cs, i) in ops && Under(x.path, PathOf(cs, i), false) {
      if i < |a| {
        assert PathOf(cs, i) == PathOf(a, i) && OpOf(cs, i) == OpOf(a, i);
      }
    }
  }

  lemma CallsLoose(cs: seq<Call>, ops: set<Op>, p: Path)
    requires CallsUnder(cs, ops, p, true)
    ensures CallsUnder(cs, ops, p, false)
  {
    forall i | 0 <= i < |cs| ensures Under(p, PathOf(cs, i), false) {
      assert Under(p, PathOf(cs, i), true);
    }
  }

  /** Calls strictly below `p` followed by calls at or below its child `c`. */
  lemma CallsAppend(a: seq<Call>, s: seq<Call>, ops: set<Op>, p: Path, c: Path)
    requires CallsUnder(a, ops, p, true) && CallsUnder(s, ops, c, false)
    requires IsStrictPrefix(p, c)
    ensures CallsUnder(a + s, ops, p, true)
  {
    var cs := a + s;
    forall i | 0 <= i < |cs| ensures OpOf(cs, i) in ops && Under(p, PathOf(cs, i), true) {
      if i >= |a| {
        var y := PathOf(s, i - |a|);
        assert PathOf(cs, i) == y && OpOf(cs, i) == OpOf(s, i - |a|);
        assert y[..|c|] == c;
        assert y[..|c|][..|p|] == y[..|p|];
      } else {
        assert PathOf(cs, i) == PathOf(a, i) && OpOf(cs, i) == OpOf(a, i);
      }
    }
  }
}
