/** The tree operations of `Pkg6\Helper\FileSystem` as methods of a class that
    holds the filesystem. The host's own calls (`mkdir`, `rmdir`, `unlink`,
    `chmod`, `rename`, `fopen`, `stream_copy_to_stream`) are the `Os` methods;
    which of them the host refuses is fixed by the set `faults`. */
module FsOps {
  import opened FsTree
  import opened FsRmdir
  import opened FsWritable
  import opened FsListing
  import opened FsMove
  import opened FsCopy
  import opened PhpLib

  class FileSystem {
    var nodes: map<Path, Node>
    /** The host calls the host refuses. */
    const faults: set<Call>
    /** The removal and `chmod` calls made so far, in order. */
    ghost var calls: seq<Call>

    ghost predicate Valid()
      reads this
    {
      ValidTree(nodes)
    }

    constructor (init: map<Path, Node>, refused: set<Call>)
      requires ValidTree(init)
      ensures Valid() && nodes == init && faults == refused && calls == []
    {
      nodes := init;
      faults := refused;
      calls := [];
    }

    /** The host refuses `op` on `p`. */
    predicate Refuses(op: Op, p: Path)
    {
      Refused(faults, op, p)
    }

    /** `delete` gets through the entry `q`: its removal is allowed and, for
        a directory, so is opening it to list its entries. */
    ghost predicate Deletable(m: map<Path, Node>, q: Path)
      requires q in m
    {
      !Refuses(RemoveOp(m[q]), q) && (m[q].Dir? ==> !Refuses(Op.OpenDir, q))
    }

    /** `delete` gets through every entry at or below `p`. */
    ghost predicate Removable(m: map<Path, Node>, p: Path)
    {
      forall q :: q in m && IsPrefix(p, q) ==> Deletable(m, q)
    }

    /** The directory `p` can be listed and `delete` gets through every entry
        strictly below it. */
    ghost predicate Clearable(m: map<Path, Node>, p: Path)
    {
      !Refuses(Op.OpenDir, p) && forall q :: q in m && IsStrictPrefix(p, q) ==> Deletable(m, q)
    }

    /** `e` names a call of `delete` below `p` that the host refuses: the
        `unlink` of a file or link, the `rmdir` of a directory, or the listing
        of a directory. */
    ghost predicate DeleteBlame(m: map<Path, Node>, p: Path, e: FsError)
    {
      match e
      case DeleteFailed(q) => q in m && IsPrefix(p, q) && !m[q].Dir? && Refuses(Op.Unlink, q)
      case DeleteDirFailed(q) => IsDirIn(m, q) && IsPrefix(p, q) && Refuses(Op.Rmdir, q)
      case CannotOpenDir(q) => IsDirIn(m, q) && IsPrefix(p, q) && Refuses(Op.OpenDir, q)
      case _ => false
    }

    /** The `k`-th step of a recursive `mkdir` of `d` succeeds: an existing
        ancestor must be a directory, and `d` itself and any missing
        ancestor must be creatable. */
    ghost predicate MkdirStep(m: map<Path, Node>, d: Path, k: nat)
      requires 0 < k <= |d|
    {
      if d[..k] in m then m[d[..k]].Dir? && k < |d| else !Refuses(Op.Mkdir, d[..k])
    }

    /** A recursive `mkdir` of `d` succeeds. */
    ghost predicate MkdirAllowed(m: map<Path, Node>, d: Path)
    {
      d != [] && forall k :: 0 < k <= |d| ==> MkdirStep(m, d, k)
    }

    /** `m1` is `m0` with directories of mode `mode` added at prefixes of `d`. */
    ghost predicate Grown(m0: map<Path, Node>, m1: map<Path, Node>, d: Path, mode: int)
    {
      && (forall q :: q in m0 ==> q in m1 && m1[q] == m0[q])
      && (forall q :: q in m1 && q !in m0 ==> IsPrefix(q, d) && m1[q] == Dir(mode))
    }

    /** `unlink($p)` of the host on a file or link. */
    method OsUnlink(p: Path) returns (ok: bool)
      requires Valid() && p in nodes && !nodes[p].Dir?
      modifies this
      ensures Valid()
      ensures ok <==> !Refuses(Op.Unlink, p)
      ensures nodes == if ok then old(nodes) - {p} else old(nodes)
      ensures calls == old(calls) + [Call(Op.Unlink, p)]
    {
      calls := calls + [Call(Op.Unlink, p)];
      ok := !Refuses(Op.Unlink, p);
      if ok {
        NothingBelowLeaf(nodes, p);
        RemoveLeafValid(nodes, p);
        nodes := nodes - {p};
      }
    }

    /** `rmdir($p)` of the host: only an empty directory can be removed. */
    method OsRmdir(p: Path) returns (ok: bool)
      requires Valid() && IsDirIn(nodes, p)
      modifies this
      ensures Valid()
      ensures ok <==> !Refuses(Op.Rmdir, p) && Children(old(nodes), p) == {}
      ensures nodes == if ok then old(nodes) - {p} else old(nodes)
      ensures calls == old(calls) + [Call(Op.Rmdir, p)]
    {
      calls := calls + [Call(Op.Rmdir, p)];
      ok := !Refuses(Op.Rmdir, p) && Children(nodes, p) == {};
      if ok {
        forall q | q in nodes && IsStrictPrefix(p, q) ensures false {
          ChildOnTheWay(nodes, p, q);
        }
        RemoveLeafValid(nodes, p);
        nodes := nodes - {p};
      }
    }

    /** The recursive `mkdir($d, $mode, true)` of the host: walks down the
        prefixes of `d`, keeping existing directories and creating missing
        ones, and fails at a prefix that is not a directory, at one it may
        not create, or when `d` itself already exists. */
    method OsMkdirAll(d: Path, mode: int) returns (ok: bool)
      requires Valid()
      modifies this`nodes
      ensures Valid()
      ensures Grown(old(nodes), nodes, d, mode)
      ensures ok <==> MkdirAllowed(old(nodes), d)
      ensures ok ==> IsDirIn(nodes, d)
      ensures !ok ==> (d in nodes <==> d in old(nodes))
    {
      if d == [] {
        return false;
      }
      var i := 0;
      while i < |d|
        invariant MkdirLoop(old(nodes), nodes, d, i, mode)
      {
        var a := d[..i + 1];
        if a in nodes {
          if !nodes[a].Dir? || i + 1 == |d| {
            MkdirStops(old(nodes), nodes, d, i, mode);
            return false;
          }
          MkdirKeeps(old(nodes), nodes, d, i, mode);
        } else {
          if Refuses(Op.Mkdir, a) {
            MkdirStops(old(nodes), nodes, d, i, mode);
            return false;
          }
          MkdirMakes(old(nodes), nodes, d, i, mode);
          nodes := nodes[a := Dir(mode)];
        }
        i := i + 1;
      }
      MkdirEnds(old(nodes), nodes, d, mode);
      return true;
    }

    /** The state of the walk of `OsMkdirAll` after `i` prefixes of `d`. */
    ghost predicate MkdirLoop(m0: map<Path, Node>, m: map<Path, Node>, d: Path, i: nat, mode: int)
    {
      && i <= |d|
      && ValidTree(m)
      && (forall k :: 0 <= k <= i ==> IsDirIn(m, d[..k]))
      && (forall q :: q in m0 ==> q in m && m[q] == m0[q])
      && (forall q :: q in m && q !in m0 ==> |q| <= i && q == d[..|q|] && m[q] == Dir(mode))
      && (forall k :: 0 < k <= i ==> MkdirStep(m0, d, k))
    }

    /** An existing directory on the way is kept. */
    lemma MkdirKeeps(m0: map<Path, Node>, m: map<Path, Node>, d: Path, i: nat, mode: int)
      requires MkdirLoop(m0, m, d, i, mode) && i + 1 < |d|
      requires d[..i + 1] in m && m[d[..i + 1]].Dir?
      ensures MkdirLoop(m0, m, d, i + 1, mode)
    {
      var a := d[..i + 1];
      assert a in m0 && m0[a] == m[a];
      assert MkdirStep(m0, d, i + 1);
    }

    /** A missing prefix the host may create becomes a directory. */
    lemma MkdirMakes(m0: map<Path, Node>, m: map<Path, Node>, d: Path, i: nat, mode: int)
      requires MkdirLoop(m0, m, d, i, mode) && i < |d|
      requires d[..i + 1] !in m && !Refuses(Op.Mkdir, d[..i + 1])
      ensures MkdirLoop(m0, m[d[..i + 1] := Dir(mode)], d, i + 1, mode)
    {
      var a := d[..i + 1];
      assert a !in m0;
      assert MkdirStep(m0, d, i + 1);
      forall k | 0 <= k < |a| ensures a[..k] == d[..k] && IsDirIn(m, a[..k]) {
        assert a[..k] == d[..k];
      }
      var m1 := m[a := Dir(mode)];
      forall q, k | q in m1 && 0 <= k < |q| ensures q[..k] in m1 && m1[q[..k]].Dir? {
        if q != a {
          assert q in m;
        }
      }
    }

    /** A prefix that is not a directory, or that may not be created, or `d`
        itself already present, ends the walk with a refusal. */
    lemma MkdirStops(m0: map<Path, Node>, m: map<Path, Node>, d: Path, i: nat, mode: int)
      requires MkdirLoop(m0, m, d, i, mode) && i < |d|
      requires if d[..i + 1] in m then !m[d[..i + 1]].Dir? || i + 1 == |d|
               else Refuses(Op.Mkdir, d[..i + 1])
      ensures Grown(m0, m, d, mode)
      ensures !MkdirAllowed(m0, d)
      ensures d in m <==> d in m0
    {
      var a := d[..i + 1];
      assert a in m <==> a in m0;
      assert !MkdirStep(m0, d, i + 1);
      forall q | q in m && q !in m0 ensures IsPrefix(q, d) && m[q] == Dir(mode) {
      }
      assert d[..|d|] == d;
    }

    /** A walk over every prefix of `d` has made `d` a directory. */
    lemma MkdirEnds(m0: map<Path, Node>, m: map<Path, Node>, d: Path, mode: int)
      requires MkdirLoop(m0, m, d, |d|, mode) && d != []
      ensures Grown(m0, m, d, mode)
      ensures MkdirAllowed(m0, d)
      ensures IsDirIn(m, d)
    {
      assert d[..|d|] == d;
    }

    /** `createDir($d, $mode)`: nothing to do when `d` is a directory; otherwise
        a recursive `mkdir`, and an error when `d` is still not a directory. */
    method CreateDir(d: Path, mode: int) returns (res: Outcome)
      requires Valid()
      modifies this`nodes
      ensures Valid()
      ensures Grown(old(nodes), nodes, d, mode)
      ensures IsDirIn(old(nodes), d) ==> nodes == old(nodes)
      ensures res.Done? <==> IsDirIn(nodes, d)
      ensures res.Done? <==> IsDirIn(old(nodes), d) || MkdirAllowed(old(nodes), d)
      ensures res.Failed? ==> res.error == MkdirFailed(d, mode)
    {
      if !IsDirIn(nodes, d) {
        var ok := OsMkdirAll(d, mode);
        if !ok && !IsDirIn(nodes, d) {
          return Failed(MkdirFailed(d, mode));
        }
      }
      return Done;
    }

    /** `unlink($p)` of the class: removes a regular file and reports whether
        it did; anything else is left alone. */
    method Unlink(p: Path) returns (ok: bool)
      requires Valid()
      modifies this
      ensures Valid()
      ensures ok <==> IsFileIn(old(nodes), p) && !Refuses(Op.Unlink, p)
      ensures nodes == if ok then old(nodes) - {p} else old(nodes)
      ensures calls == old(calls) + if IsFileIn(old(nodes), p) then [Call(Op.Unlink, p)] else []
    {
      if IsFileIn(nodes, p) {
        ok := OsUnlink(p);
      } else {
        ok := false;
      }
    }

    /** Deletes every entry of the directory `p` (the loop of `delete` over a
        directory's children, also used by `copy` to empty its target);
        `made` are the removal calls it makes. */
    method ClearDir(p: Path) returns (res: Outcome, ghost made: seq<Call>)
      requires Valid() && IsDirIn(nodes, p)
      modifies this
      decreases Subtree(nodes, p), 0
      ensures Valid()
      ensures Shrunk(old(nodes), nodes, p)
      ensures p in nodes && nodes[p] == old(nodes)[p]
      ensures res.Done? ==> forall q :: q in nodes ==> !IsStrictPrefix(p, q)
      ensures res.Done? <==> Clearable(old(nodes), p)
      ensures res.Failed? ==> DeleteBlame(old(nodes), p, res.error) && res.error != DeleteDirFailed(p)
      ensures calls == old(calls) + made
      ensures RemovalsUnder(made, p, true) && ChildrenFirst(made)
    {
      if Refuses(Op.OpenDir, p) {
        return Failed(CannotOpenDir(p)), [];
      }
      var todo := Children(nodes, p);
      ghost var done: set<Path> := {};
      made := [];
      ClearStart(nodes, p);
      while todo != {}
        invariant Valid() && calls == old(calls) + made
        invariant ClearLoop(old(nodes), nodes, p, todo, done, made)
        decreases todo
      {
        var c :| c in todo;
        SubtreeShrinks(old(nodes), nodes, p, c);
        ghost var sub;
        var r;
        r, sub := DeleteChild(old(nodes), p, todo, done, made, c);
        AppendAssoc(old(calls), made, sub);
        if r.Failed? {
          return r, made + sub;
        }
        made := made + sub;
        todo := todo - {c};
        done := done + {c};
      }
      ClearEnds(old(nodes), nodes, p, done, made);
      return Done, made;
    }

    lemma AppendAssoc(a: seq<Call>, b: seq<Call>, c: seq<Call>)
      ensures (a + b) + c == a + (b + c)
    {
    }

    /** One turn of the loop of `ClearDir`: deletes the child `c` of `p`. */
    method DeleteChild(ghost m0: map<Path, Node>, p: Path, ghost todo: set<Path>, ghost done: set<Path>,
                       ghost made: seq<Call>, c: Path) returns (r: Outcome, ghost sub: seq<Call>)
      requires Valid() && ClearLoop(m0, nodes, p, todo, done, made) && c in todo
      modifies this
      decreases Subtree(nodes, c), 2
      ensures Valid() && calls == old(calls) + sub
      ensures r.Done? ==> ClearLoop(m0, nodes, p, todo - {c}, done + {c}, made + sub)
      ensures r.Failed? ==> DeleteBlame(m0, p, r.error) && r.error != DeleteDirFailed(p)
      ensures r.Failed? ==> Shrunk(m0, nodes, p) && p in nodes && nodes[p] == m0[p] && !Clearable(m0, p)
      ensures r.Failed? ==> RemovalsUnder(made + sub, p, true) && ChildrenFirst(made + sub)
    {
      r, sub := Delete(c);
      if r.Failed? {
        DeleteBlameLifts(m0, old(nodes), p, c, r.error);
        ClearFails(m0, old(nodes), nodes, p, todo, done, made, c, sub);
      } else {
        ClearStep(m0, old(nodes), nodes, p, todo, done, made, c, sub);
      }
    }

    /** The invariant of the loop of `ClearDir` over the children of `p`. */
    ghost predicate ClearLoop(m0: map<Path, Node>, m: map<Path, Node>, p: Path,
                              todo: set<Path>, done: set<Path>, made: seq<Call>)
    {
      && ValidTree(m0) && ValidTree(m)
      && todo !! done && todo + done == Children(m0, p)
      && ClearedUpTo(m0, m, p, done)
      && (forall q :: q in m ==> !InDone(q, p, done))
      && RemovableInDone(m0, p, done)
      && RemovalsUnder(made, p, true) && ChildrenFirst(made) && CallsInDone(made, p, done)
    }

    lemma ClearStart(m0: map<Path, Node>, p: Path)
      requires ValidTree(m0)
      ensures ClearLoop(m0, m0, p, Children(m0, p), {}, [])
    {
    }

    /** A child whose deletion succeeded joins the visited ones. */
    lemma ClearStep(m0: map<Path, Node>, before: map<Path, Node>, after: map<Path, Node>, p: Path,
                    todo: set<Path>, done: set<Path>, made: seq<Call>, c: Path, sub: seq<Call>)
      requires ClearLoop(m0, before, p, todo, done, made) && c in todo
      requires ValidTree(after) && Shrunk(before, after, c)
      requires forall q :: q in after ==> !IsPrefix(c, q)
      requires Removable(before, c)
      requires RemovalsUnder(sub, c, false) && ChildrenFirst(sub)
      ensures ClearLoop(m0, after, p, todo - {c}, done + {c}, made + sub)
    {
      ChildrenFirstAppend(made, sub, p, done, c);
      CallsAppend(made, sub, {Op.Unlink, Op.Rmdir}, p, c);
      ClearedStep(m0, before, after, p, done, c);
      RemovableBefore(m0, before, p, done, c);
      RemovableDoneStep(m0, p, done, c);
      ClearedGone(after, p, done, c);
    }

    /** A child whose deletion failed makes the whole clearing fail. */
    lemma ClearFails(m0: map<Path, Node>, before: map<Path, Node>, after: map<Path, Node>, p: Path,
                     todo: set<Path>, done: set<Path>, made: seq<Call>, c: Path, sub: seq<Call>)
      requires ClearLoop(m0, before, p, todo, done, made) && c in todo
      requires Shrunk(before, after, c)
      requires !Removable(before, c)
      requires RemovalsUnder(sub, c, false) && ChildrenFirst(sub)
      ensures Shrunk(m0, after, p) && p in after && after[p] == m0[p]
      ensures !Clearable(m0, p)
      ensures RemovalsUnder(made + sub, p, true) && ChildrenFirst(made + sub)
    {
      ChildrenFirstAppend(made, sub, p, done, c);
      CallsAppend(made, sub, {Op.Unlink, Op.Rmdir}, p, c);
      ClearedStep(m0, before, after, p, done, c);
      NotClearable(m0, before, p, c);
      ClearedShrunk(m0, after, p, done + {c});
    }

    /** Once every child is visited, `p` is empty and every entry below it was removable. */
    lemma ClearEnds(m0: map<Path, Node>, m: map<Path, Node>, p: Path, done: set<Path>, made: seq<Call>)
      requires ClearLoop(m0, m, p, {}, done, made)
      requires p in m0 && !Refuses(Op.OpenDir, p)
      ensures Shrunk(m0, m, p) && p in m && m[p] == m0[p]
      ensures Clearable(m0, p)
      ensures forall q :: q in m ==> !IsStrictPrefix(p, q)
    {
      ClearedShrunk(m0, m, p, done);
      ClearedAll(m0, m, p, done);
    }

    /** A refused call below a child, in a map that agrees with `m0`, is one below `p`. */
    lemma DeleteBlameLifts(m0: map<Path, Node>, m: map<Path, Node>, p: Path, c: Path, e: FsError)
      requires IsStrictPrefix(p, c)
      requires forall q :: q in m ==> q in m0 && m[q] == m0[q]
      requires DeleteBlame(m, c, e)
      ensures DeleteBlame(m0, p, e) && e != DeleteDirFailed(p)
    {
      PrefixTrans(p, c, e.path);
    }

    /** A refusal below a child, in a map that agrees with `m0`, is a refusal below `p`. */
    lemma NotClearable(m0: map<Path, Node>, m: map<Path, Node>, p: Path, c: Path)
      requires IsStrictPrefix(p, c)
      requires forall q :: q in m ==> q in m0 && m[q] == m0[q]
      requires !Removable(m, c)
      ensures !Clearable(m0, p)
    {
      var q :| q in m && IsPrefix(c, q) && !Deletable(m, q);
      PrefixTrans(p, c, q);
    }

    /** The subtree of a child not yet visited is as it was. */
    lemma RemovableBefore(m0: map<Path, Node>, m: map<Path, Node>, p: Path, done: set<Path>, c: Path)
      requires ClearedUpTo(m0, m, p, done)
      requires |c| == |p| + 1 && c !in done
      requires Removable(m, c)
      ensures Removable(m0, c)
    {
      forall q | q in m0 && IsPrefix(c, q) ensures q in m {
        assert q[..|c|] == c;
        assert q[..|p| + 1] == c;
      }
    }

    /** Every entry below the children of `p` in `done` can be removed. */
    ghost predicate RemovableInDone(m0: map<Path, Node>, p: Path, done: set<Path>)
    {
      forall q :: q in m0 && InDone(q, p, done) ==> Deletable(m0, q)
    }

    lemma RemovableDoneStep(m0: map<Path, Node>, p: Path, done: set<Path>, c: Path)
      requires RemovableInDone(m0, p, done)
      requires Removable(m0, c) && |c| == |p| + 1
      ensures RemovableInDone(m0, p, done + {c})
    {
      forall q | q in m0 && InDone(q, p, done + {c}) ensures Deletable(m0, q) {
        if q[..|p| + 1] == c {
          assert q[..|c|] == c;
        }
      }
    }

    /** Once every child is visited, nothing is left below `p`. */
    lemma ClearedAll(m0: map<Path, Node>, m: map<Path, Node>, p: Path, done: set<Path>)
      requires ValidTree(m0) && done == Children(m0, p) && !Refuses(Op.OpenDir, p)
      requires forall q :: q in m ==> q in m0 && !InDone(q, p, done)
      requires RemovableInDone(m0, p, done)
      ensures Clearable(m0, p)
      ensures forall q :: q in m ==> !IsStrictPrefix(p, q)
    {
      forall q | q in m0 && IsStrictPrefix(p, q) ensures Deletable(m0, q) {
        ChildOnTheWay(m0, p, q);
      }
      forall q | q in m ensures !IsStrictPrefix(p, q) {
        if IsStrictPrefix(p, q) {
          ChildOnTheWay(m0, p, q);
        }
      }
    }

    lemma RemovableSplit(m: map<Path, Node>, p: Path)
      requires IsDirIn(m, p)
      ensures Removable(m, p) <==> Clearable(m, p) && !Refuses(Op.Rmdir, p)
    {
      assert IsPrefix(p, p);
      forall q | q in m && IsPrefix(p, q) && !IsStrictPrefix(p, q) ensures q == p {
        assert q == q[..|p|];
      }
    }

    /** A file or link is removable exactly when its `unlink` is allowed. */
    lemma RemovableLeaf(m: map<Path, Node>, p: Path)
      requires ValidTree(m) && p in m && !m[p].Dir?
      ensures Removable(m, p) <==> !Refuses(Op.Unlink, p)
    {
      assert IsPrefix(p, p);
      forall q | q in m && IsPrefix(p, q) ensures q == p {
        NothingBelowLeaf(m, p);
        PrefixCases(p, q);
      }
    }

    /** `delete($p)`: a file or link is unlinked (a link is never followed);
        a directory is emptied, children first, and then removed; a missing
        path is left alone. The first refused call raises. */
    method Delete(p: Path) returns (res: Outcome, ghost made: seq<Call>)
      requires Valid()
      modifies this
      decreases Subtree(nodes, p), 1
      ensures Valid()
      ensures Shrunk(old(nodes), nodes, p)
      ensures res.Done? ==> forall q :: q in nodes ==> !IsPrefix(p, q)
      ensures res.Done? <==> Removable(old(nodes), p)
      ensures res.Failed? ==> DeleteBlame(old(nodes), p, res.error)
      ensures calls == old(calls) + made
      ensures RemovalsUnder(made, p, false) && ChildrenFirst(made)
      ensures p !in old(nodes) ==> nodes == old(nodes) && made == []
      ensures p in old(nodes) && !old(nodes)[p].Dir? ==> made == [Call(Op.Unlink, p)]
    {
      if p in nodes && !nodes[p].Dir? {
        NothingBelowLeaf(nodes, p);
        RemovableLeaf(nodes, p);
        var ok := OsUnlink(p);
        made := [Call(Op.Unlink, p)];
        assert PathOf(made, 0) == p;
        if !ok {
          return Failed(DeleteFailed(p)), made;
        }
        NothingAtOrBelow(nodes, p);
        return Done, made;
      } else if p in nodes {
        RemovableSplit(nodes, p);
        res, made := ClearDir(p);
        if res.Failed? {
          CallsLoose(made, {Op.Unlink, Op.Rmdir}, p);
          return;
        }
        assert Children(nodes, p) == {};
        var ok := OsRmdir(p);
        ChildrenFirstThenParent(made, Call(Op.Rmdir, p));
        CallsThenParent(made, {Op.Unlink, Op.Rmdir}, Call(Op.Rmdir, p));
        made := made + [Call(Op.Rmdir, p)];
        if !ok {
          return Failed(DeleteDirFailed(p)), made;
        }
        NothingAtOrBelow(nodes, p);
        return Done, made;
      }
      MissingHasNoSubtree(nodes, p);
      return Done, [];
    }

    /** `rmdir($d, $unlink)`: `false` when `d` is not a directory; otherwise
        walks the children of `d`, recursing into directories (with the flag
        dropped) and unlinking files when `unlink` holds, then attempts
        `rmdir` on `d` whatever happened, and answers `true`. A directory the
        iterator cannot open throws, from whatever depth, and ends the walk;
        a stuck entry survives in every case. */
    method Rmdir(d: Path, unlink: bool) returns (r: Result<bool>, ghost made: seq<Call>)
      requires Valid()
      modifies this
      ensures Valid()
      ensures r.Ok? <==> !IsDirIn(old(nodes), d) || Listable(old(nodes), d)
      ensures r.Ok? ==> r.value == IsDirIn(old(nodes), d)
      ensures r.Err? ==> r.error.CannotOpenDir? && Unopenable(old(nodes), d, r.error.path)
      ensures !IsDirIn(old(nodes), d) ==> nodes == old(nodes) && made == []
      ensures Shrunk(old(nodes), nodes, d)
      ensures forall q :: q in old(nodes) && IsPrefix(d, q) && Stuck(old(nodes), faults, d, unlink, false, q) ==> q in nodes
      ensures r == Ok(true) ==> forall q :: q in old(nodes) && IsPrefix(d, q) ==>
        (q in nodes <==> Stuck(old(nodes), faults, d, unlink, false, q))
      ensures calls == old(calls) + made && RemovalsUnder(made, d, false)
    {
      r, made := RmdirWalk(d, unlink, false);
    }

    /** `rmdir` with the flag passed on to the nested calls, so that
        `rmdir($d, false)` removes no file, whatever the outcome. */
    method RmdirPassingFlag(d: Path, unlink: bool) returns (r: Result<bool>, ghost made: seq<Call>)
      requires Valid()
      modifies this
      ensures Valid()
      ensures r.Ok? <==> !IsDirIn(old(nodes), d) || Listable(old(nodes), d)
      ensures r.Ok? ==> r.value == IsDirIn(old(nodes), d)
      ensures r.Err? ==> r.error.CannotOpenDir? && Unopenable(old(nodes), d, r.error.path)
      ensures Shrunk(old(nodes), nodes, d)
      ensures r == Ok(true) ==> forall q :: q in old(nodes) && IsPrefix(d, q) ==>
        (q in nodes <==> Stuck(old(nodes), faults, d, unlink, true, q))
      ensures !unlink ==> forall q :: IsFileIn(old(nodes), q) ==> q in nodes
      ensures calls == old(calls) + made && RemovalsUnder(made, d, false)
    {
      r, made := RmdirWalk(d, unlink, true);
      forall q | !unlink && IsFileIn(old(nodes), q) ensures q in nodes {
        if IsPrefix(d, q) {
          if q == d {
            assert !IsDirIn(old(nodes), d);
          } else {
            assert IsStrictPrefix(d, q);
            FlagKeepsFiles(old(nodes), faults, d, q);
          }
        }
      }
    }

    /** The walk of `rmdir`; `pass` says whether the nested calls receive `unlink`. */
    method RmdirWalk(d: Path, unlink: bool, pass: bool) returns (r: Result<bool>, ghost made: seq<Call>)
      requires Valid()
      modifies this
      decreases Subtree(nodes, d), 1
      ensures Valid()
      ensures r.Ok? <==> !IsDirIn(old(nodes), d) || Listable(old(nodes), d)
      ensures r.Ok? ==> r.value == IsDirIn(old(nodes), d)
      ensures r.Err? ==> r.error.CannotOpenDir? && Unopenable(old(nodes), d, r.error.path)
      ensures !IsDirIn(old(nodes), d) ==> nodes == old(nodes) && made == []
      ensures Shrunk(old(nodes), nodes, d)
      ensures forall q :: q in old(nodes) && IsPrefix(d, q) && Stuck(old(nodes), faults, d, unlink, pass, q) ==> q in nodes
      ensures r == Ok(true) ==> forall q :: q in old(nodes) && IsPrefix(d, q) ==>
        (q in nodes <==> Stuck(old(nodes), faults, d, unlink, pass, q))
      ensures calls == old(calls) + made && RemovalsUnder(made, d, false)
    {
      if !IsDirIn(nodes, d) {
        return Ok(false), [];
      }
      if Refuses(Op.OpenDir, d) {
        assert Unopenable(nodes, d, d);
        return Err(CannotOpenDir(d)), [];
      }
      var todo := Children(nodes, d);
      ghost var done: set<Path> := {};
      made := [];
      while todo != {}
        invariant Valid() && calls == old(calls) + made
        invariant RmdirLoop(old(nodes), nodes, d, unlink, pass, todo, done, made)
        invariant ListedInDone(old(nodes), d, done)
        decreases todo
      {
        var c :| c in todo;
        SubtreeShrinks(old(nodes), nodes, d, c);
        var e;
        ghost var sub;
        e, sub := RmdirChild(old(nodes), d, unlink, pass, todo, done, made, c);
        AppendAssoc(old(calls), made, sub);
        if e.Some? {
          CallsLoose(made + sub, {Op.Unlink, Op.Rmdir}, d);
          return Err(e.value), made + sub;
        }
        ListedStep(old(nodes), d, done, c);
        made := made + sub;
        todo := todo - {c};
        done := done + {c};
      }
      ListedAll(old(nodes), d, done);
      ghost var m := nodes;
      var ok := OsRmdir(d);
      RmdirEnds(old(nodes), m, nodes, d, unlink, pass, done, ok);
      CallsThenParent(made, {Op.Unlink, Op.Rmdir}, Call(Op.Rmdir, d));
      made := made + [Call(Op.Rmdir, d)];
      return Ok(true), made;
    }

    /** Every directory below the visited children of `d` could be opened. */
    ghost predicate ListedInDone(m0: map<Path, Node>, d: Path, done: set<Path>)
    {
      forall q :: q in m0 && InDone(q, d, done) && m0[q].Dir? ==> !Refuses(Op.OpenDir, q)
    }

    lemma ListedStep(m0: map<Path, Node>, d: Path, done: set<Path>, c: Path)
      requires ListedInDone(m0, d, done) && Listable(m0, c) && |c| == |d| + 1
      ensures ListedInDone(m0, d, done + {c})
    {
      forall q | q in m0 && InDone(q, d, done + {c}) && m0[q].Dir? ensures !Refuses(Op.OpenDir, q) {
        if q[..|d| + 1] == c {
          assert q[..|c|] == c;
          assert !Unopenable(m0, c, q);
        }
      }
    }

    /** Once every child is visited, every directory at or below `d` could be opened. */
    lemma ListedAll(m0: map<Path, Node>, d: Path, done: set<Path>)
      requires ValidTree(m0) && done == Children(m0, d)
      requires ListedInDone(m0, d, done) && !Refuses(Op.OpenDir, d)
      ensures Listable(m0, d)
    {
      forall q | Unopenable(m0, d, q) ensures false {
        PrefixCases(d, q);
        if q != d {
          ChildOnTheWay(m0, d, q);
        }
      }
    }

    /** A file or link has no directory to open. */
    lemma LeafListable(m: map<Path, Node>, c: Path)
      requires ValidTree(m) && c in m && !m[c].Dir?
      ensures Listable(m, c)
    {
      forall q | Unopenable(m, c, q) ensures false {
        NothingBelowLeaf(m, c);
        PrefixCases(c, q);
      }
    }

    /** Listing facts about the subtree of `c` carry over between maps that agree on it. */
    lemma ListedLifts(m0: map<Path, Node>, m: map<Path, Node>, d: Path, c: Path)
      requires forall s :: IsPrefix(c, s) ==> (s in m <==> s in m0)
      requires forall s :: s in m && IsPrefix(c, s) ==> m[s] == m0[s]
      requires IsStrictPrefix(d, c)
      ensures Listable(m, c) ==> Listable(m0, c)
      ensures forall q :: Unopenable(m, c, q) ==> Unopenable(m0, d, q)
    {
      forall q | Unopenable(m0, c, q) ensures Unopenable(m, c, q) {
      }
      forall q | Unopenable(m, c, q) ensures Unopenable(m0, d, q) {
        PrefixTrans(d, c, q);
      }
    }

    /** One turn of the loop of `RmdirWalk`: the child `c` of `d`. */
    method RmdirChild(ghost m0: map<Path, Node>, d: Path, unlink: bool, pass: bool, ghost todo: set<Path>,
                      ghost done: set<Path>, ghost made: seq<Call>, c: Path) returns (e: Option<FsError>, ghost sub: seq<Call>)
      requires Valid() && RmdirLoop(m0, nodes, d, unlink, pass, todo, done, made) && c in todo
      modifies this
      decreases Subtree(nodes, c), 2
      ensures Valid() && calls == old(calls) + sub
      ensures e.None? ==> RmdirLoop(m0, nodes, d, unlink, pass, todo - {c}, done + {c}, made + sub)
      ensures e.None? ==> Listable(m0, c)
      ensures e.Some? ==> e.value.CannotOpenDir? && Unopenable(m0, d, e.value.path)
      ensures e.Some? ==> Shrunk(m0, nodes, d) && RemovalsUnder(made + sub, d, true)
      ensures e.Some? ==> forall q :: q in m0 && IsPrefix(d, q) && Stuck(m0, faults, d, unlink, pass, q) ==> q in nodes
    {
      RmdirUntouched(m0, nodes, d, done, c);
      if IsDirIn(nodes, c) {
        var r, s := RmdirWalk(c, Nested(unlink, pass), pass);
        sub := s;
        ListedLifts(m0, old(nodes), d, c);
        if r.Err? {
          forall q | q in old(nodes) && IsPrefix(c, q) && Stuck(m0, faults, d, unlink, pass, q) ensures q in nodes {
            StuckAgree(old(nodes), faults, d, unlink, pass, c, q);
            StuckLocal(m0, old(nodes), faults, d, unlink, pass, c, q);
          }
          RmdirAborts(m0, old(nodes), nodes, d, unlink, pass, todo, done, made, c, sub);
          return Some(r.error), sub;
        }
        forall q | q in old(nodes) && IsPrefix(c, q)
          ensures q in nodes <==> Stuck(m0, faults, d, unlink, pass, q)
        {
          StuckAgree(old(nodes), faults, d, unlink, pass, c, q);
          StuckLocal(m0, old(nodes), faults, d, unlink, pass, c, q);
        }
      } else {
        LeafListable(m0, c);
        if unlink {
          var _ := Unlink(c);
        }
        sub := if unlink && IsFileIn(old(nodes), c) then [Call(Op.Unlink, c)] else [];
        RmdirLeaf(m0, old(nodes), nodes, d, unlink, pass, done, c, sub);
      }
      RmdirStep(m0, old(nodes), nodes, d, unlink, pass, todo, done, made, c, sub);
      e := None;
    }

    /** A walk that throws below the child `c` leaves every stuck entry in place. */
    lemma RmdirAborts(m0: map<Path, Node>, before: map<Path, Node>, after: map<Path, Node>, d: Path,
                      unlink: bool, pass: bool, todo: set<Path>, done: set<Path>, made: seq<Call>,
                      c: Path, sub: seq<Call>)
      requires RmdirLoop(m0, before, d, unlink, pass, todo, done, made) && c in todo
      requires Shrunk(before, after, c)
      requires forall q :: q in before && IsPrefix(c, q) && Stuck(m0, faults, d, unlink, pass, q) ==> q in after
      requires RemovalsUnder(sub, c, false)
      ensures Shrunk(m0, after, d) && RemovalsUnder(made + sub, d, true)
      ensures forall q :: q in m0 && IsPrefix(d, q) && Stuck(m0, faults, d, unlink, pass, q) ==> q in after
    {
      CallsAppend(made, sub, {Op.Unlink, Op.Rmdir}, d, c);
      ClearedStep(m0, before, after, d, done, c);
      ClearedShrunk(m0, after, d, done + {c});
      forall q | q in m0 && IsPrefix(d, q) && Stuck(m0, faults, d, unlink, pass, q) ensures q in after {
        assert q in before;
      }
    }

    /** A file or link child is removed exactly when it does not block. */
    lemma RmdirLeaf(m0: map<Path, Node>, before: map<Path, Node>, after: map<Path, Node>, d: Path,
                    unlink: bool, pass: bool, done: set<Path>, c: Path, sub: seq<Call>)
      requires ValidTree(m0) && ValidTree(before) && c in before && !before[c].Dir?
      requires IsStrictPrefix(d, c) && |c| == |d| + 1
      requires forall s :: IsPrefix(c, s) ==> (s in before <==> s in m0)
      requires forall s :: s in before && IsPrefix(c, s) ==> before[s] == m0[s]
      requires after == if unlink && IsFileIn(before, c) && !Refuses(Op.Unlink, c) then before - {c} else before
      requires sub == if unlink && IsFileIn(before, c) then [Call(Op.Unlink, c)] else []
      ensures Shrunk(before, after, c)
      ensures forall q :: q in before && IsPrefix(c, q) ==> (q in after <==> Stuck(m0, faults, d, unlink, pass, q))
      ensures RemovalsUnder(sub, c, false)
    {
      assert |sub| > 0 ==> PathOf(sub, 0) == c;
      NothingBelowLeaf(before, c);
      StuckLeaf(m0, faults, d, unlink, pass, c);
      forall q | q in before && IsPrefix(c, q)
        ensures q in after <==> Stuck(m0, faults, d, unlink, pass, q)
      {
        assert q == q[..|c|];
      }
    }

    /** The invariant of the loop of `RmdirWalk` over the children of `d`. */
    ghost predicate RmdirLoop(m0: map<Path, Node>, m: map<Path, Node>, d: Path, unlink: bool, pass: bool,
                              todo: set<Path>, done: set<Path>, made: seq<Call>)
    {
      && ValidTree(m0) && ValidTree(m) && IsDirIn(m0, d)
      && todo !! done && todo + done == Children(m0, d)
      && ClearedUpTo(m0, m, d, done)
      && (forall q :: q in m0 && InDone(q, d, done) ==> (q in m <==> Stuck(m0, faults, d, unlink, pass, q)))
      && RemovalsUnder(made, d, true)
    }

    /** The subtree of a child not yet visited is as it was. */
    lemma RmdirUntouched(m0: map<Path, Node>, m: map<Path, Node>, d: Path, done: set<Path>, c: Path)
      requires ClearedUpTo(m0, m, d, done)
      requires |c| == |d| + 1 && c !in done
      ensures forall s :: IsPrefix(c, s) ==> (s in m <==> s in m0)
      ensures forall s :: s in m && IsPrefix(c, s) ==> m[s] == m0[s]
    {
      forall s | IsPrefix(c, s) && s in m0 ensures s in m {
        assert s[..|d| + 1] == s[..|c|];
      }
    }

    /** A visited child joins `done`. */
    lemma RmdirStep(m0: map<Path, Node>, before: map<Path, Node>, after: map<Path, Node>, d: Path,
                    unlink: bool, pass: bool, todo: set<Path>, done: set<Path>, made: seq<Call>,
                    c: Path, sub: seq<Call>)
      requires RmdirLoop(m0, before, d, unlink, pass, todo, done, made) && c in todo
      requires ValidTree(after) && Shrunk(before, after, c)
      requires forall q :: q in before && IsPrefix(c, q) ==> (q in after <==> Stuck(m0, faults, d, unlink, pass, q))
      requires RemovalsUnder(sub, c, false)
      ensures RmdirLoop(m0, after, d, unlink, pass, todo - {c}, done + {c}, made + sub)
    {
      CallsAppend(made, sub, {Op.Unlink, Op.Rmdir}, d, c);
      ClearedStep(m0, before, after, d, done, c);
      RmdirDoneStep(m0, before, after, d, unlink, pass, done, c);
    }

    lemma RmdirDoneStep(m0: map<Path, Node>, before: map<Path, Node>, after: map<Path, Node>, d: Path,
                        unlink: bool, pass: bool, done: set<Path>, c: Path)
      requires ClearedUpTo(m0, before, d, done) && |c| == |d| + 1 && c !in done
      requires forall q :: q in m0 && InDone(q, d, done) ==> (q in before <==> Stuck(m0, faults, d, unlink, pass, q))
      requires Shrunk(before, after, c)
      requires forall q :: q in before && IsPrefix(c, q) ==> (q in after <==> Stuck(m0, faults, d, unlink, pass, q))
      ensures forall q :: q in m0 && InDone(q, d, done + {c}) ==> (q in after <==> Stuck(m0, faults, d, unlink, pass, q))
    {
      RmdirUntouched(m0, before, d, done, c);
      forall q | q in m0 && InDone(q, d, done + {c})
        ensures q in after <==> Stuck(m0, faults, d, unlink, pass, q)
      {
        if q[..|d| + 1] == c {
          assert q[..|c|] == c;
        }
      }
    }

    /** After the last child, `rmdir` on `d` removes it exactly when it is not stuck. */
    lemma RmdirEnds(m0: map<Path, Node>, m: map<Path, Node>, m1: map<Path, Node>, d: Path,
                    unlink: bool, pass: bool, done: set<Path>, ok: bool)
      requires ValidTree(m0) && IsDirIn(m0, d) && done == Children(m0, d) && ClearedUpTo(m0, m, d, done)
      requires forall q :: q in m0 && InDone(q, d, done) ==> (q in m <==> Stuck(m0, faults, d, unlink, pass, q))
      requires ok <==> !Refuses(Op.Rmdir, d) && Children(m, d) == {}
      requires m1 == if ok then m - {d} else m
      ensures Shrunk(m0, m1, d)
      ensures forall q :: q in m0 && IsPrefix(d, q) ==> (q in m1 <==> Stuck(m0, faults, d, unlink, pass, q))
    {
      ClearedShrunk(m0, m, d, done);
      RmdirBelow(m0, m, d, unlink, pass, done);
      StuckDir(m0, faults, d, unlink, pass);
      assert d in m1 <==> Stuck(m0, faults, d, unlink, pass, d);
      forall q | q in m0 && IsPrefix(d, q) ensures q in m1 <==> Stuck(m0, faults, d, unlink, pass, q) {
        PrefixCases(d, q);
      }
    }

    /** After the last child, the entries strictly below `d` that are left are the stuck ones. */
    lemma RmdirBelow(m0: map<Path, Node>, m: map<Path, Node>, d: Path, unlink: bool, pass: bool,
                     done: set<Path>)
      requires ValidTree(m0) && done == Children(m0, d) && ClearedUpTo(m0, m, d, done)
      requires forall q :: q in m0 && InDone(q, d, done) ==> (q in m <==> Stuck(m0, faults, d, unlink, pass, q))
      ensures forall q :: q in m0 && IsStrictPrefix(d, q) ==> (q in m <==> Stuck(m0, faults, d, unlink, pass, q))
      ensures Children(m, d) == {} <==> !exists c :: c in Children(m0, d) && Stuck(m0, faults, d, unlink, pass, c)
    {
      forall q | q in m0 && IsStrictPrefix(d, q) ensures InDone(q, d, done) {
        ChildOnTheWay(m0, d, q);
      }
      forall c | c in Children(m0, d) ensures c in Children(m, d) <==> Stuck(m0, faults, d, unlink, pass, c) {
        assert InDone(c, d, done);
      }
    }

    /** `chmod($p, $mode)` of the host on a file or directory. */
    method OsChmod(p: Path, mode: int) returns (ok: bool)
      requires Valid() && p in nodes && !nodes[p].Link?
      modifies this
      ensures Valid()
      ensures ok <==> !Refuses(Op.Chmod, p)
      ensures nodes == if ok then old(nodes)[p := Chmodded(old(nodes)[p], mode, mode)] else old(nodes)
      ensures calls == old(calls) + [Call(Op.Chmod, p)]
    {
      calls := calls + [Call(Op.Chmod, p)];
      ok := !Refuses(Op.Chmod, p);
      if ok {
        RewrittenValid(nodes, nodes[p := Chmodded(nodes[p], mode, mode)], p, mode, mode);
        nodes := nodes[p := Chmodded(nodes[p], mode, mode)];
      }
    }

    /** `makeWritable($p, $dirMode, $fileMode)`: a file is `chmod`-ed to
        `fileMode`; a directory has its children made writable, each in turn,
        and is then `chmod`-ed to `dirMode`; anything else is not found. The
        first failure raises. */
    method MakeWritable(p: Path, dirMode: int, fileMode: int) returns (res: Outcome, ghost made: seq<Call>)
      requires Valid()
      modifies this
      decreases Subtree(nodes, p), 1
      ensures Valid()
      ensures Rewritten(old(nodes), nodes, p, dirMode, fileMode)
      ensures res.Done? <==> Writable(old(nodes), faults, p)
      ensures res.Done? ==> Written(old(nodes), nodes, p, dirMode, fileMode)
      ensures res.Failed? ==> Blame(old(nodes), faults, p, dirMode, fileMode, res.error)
      ensures calls == old(calls) + made && ChmodsUnder(made, p, false) && ChildrenFirst(made)
    {
      if IsFileIn(nodes, p) {
        NothingBelowLeaf(nodes, p);
        var ok := OsChmod(p, fileMode);
        made := [Call(Op.Chmod, p)];
        assert PathOf(made, 0) == p;
        WritableLeaf(old(nodes), nodes, p, dirMode, fileMode, ok);
        if !ok {
          return Failed(ChmodFailed(p, fileMode)), made;
        }
        return Done, made;
      } else if IsDirIn(nodes, p) {
        res, made := WritDir(p, dirMode, fileMode);
        return;
      }
      return Failed(NotFound(p)), [];
    }

    /** The directory branch of `makeWritable`: the children first, then `p` itself. */
    method WritDir(p: Path, dirMode: int, fileMode: int) returns (res: Outcome, ghost made: seq<Call>)
      requires Valid() && IsDirIn(nodes, p)
      modifies this
      decreases Subtree(nodes, p), 0
      ensures Valid()
      ensures Rewritten(old(nodes), nodes, p, dirMode, fileMode)
      ensures res.Done? <==> Writable(old(nodes), faults, p)
      ensures res.Done? ==> Written(old(nodes), nodes, p, dirMode, fileMode)
      ensures res.Failed? ==> Blame(old(nodes), faults, p, dirMode, fileMode, res.error)
      ensures calls == old(calls) + made && ChmodsUnder(made, p, false) && ChildrenFirst(made)
    {
      if Refuses(Op.OpenDir, p) {
        assert IsPrefix(p, p);
        return Failed(CannotOpenDir(p)), [];
      }
      var todo := Children(nodes, p);
      ghost var done: set<Path> := {};
      made := [];
      while todo != {}
        invariant Valid() && calls == old(calls) + made
        invariant WritLoop(old(nodes), nodes, p, dirMode, fileMode, todo, done, made)
        decreases todo
      {
        var c :| c in todo;
        SubtreeShrinks(old(nodes), nodes, p, c);
        ghost var sub;
        var r;
        r, sub := WritChild(old(nodes), p, dirMode, fileMode, todo, done, made, c);
        AppendAssoc(old(calls), made, sub);
        if r.Failed? {
          CallsLoose(made + sub, {Op.Chmod}, p);
          return r, made + sub;
        }
        made := made + sub;
        todo := todo - {c};
        done := done + {c};
      }
      ghost var m := nodes;
      var ok := OsChmod(p, dirMode);
      WritEnds(old(nodes), m, nodes, p, dirMode, fileMode, done, ok);
      CallsThenParent(made, {Op.Chmod}, Call(Op.Chmod, p));
      ChildrenFirstThenParent(made, Call(Op.Chmod, p));
      made := made + [Call(Op.Chmod, p)];
      if !ok {
        return Failed(ChmodDirFailed(p, dirMode)), made;
      }
      return Done, made;
    }

    /** A file is writable exactly when its `chmod` goes through. */
    lemma WritableLeaf(m0: map<Path, Node>, m: map<Path, Node>, p: Path, dirMode: int, fileMode: int, ok: bool)
      requires IsFileIn(m0, p) && forall q :: q in m0 ==> !IsStrictPrefix(p, q)
      requires ok <==> !Refuses(Op.Chmod, p)
      requires m == if ok then m0[p := Chmodded(m0[p], fileMode, fileMode)] else m0
      ensures Rewritten(m0, m, p, dirMode, fileMode)
      ensures ok <==> Writable(m0, faults, p)
      ensures ok ==> Written(m0, m, p, dirMode, fileMode)
      ensures !ok ==> Blame(m0, faults, p, dirMode, fileMode, ChmodFailed(p, fileMode))
    {
      forall q | q in m0 && IsPrefix(p, q) ensures q == p {
        PrefixCases(p, q);
      }
    }

    /** One turn of the loop of `MakeWritable`: the child `c` of `p`. */
    method WritChild(ghost m0: map<Path, Node>, p: Path, dirMode: int, fileMode: int, ghost todo: set<Path>,
                     ghost done: set<Path>, ghost made: seq<Call>, c: Path) returns (r: Outcome, ghost sub: seq<Call>)
      requires Valid() && WritLoop(m0, nodes, p, dirMode, fileMode, todo, done, made) && c in todo
      modifies this
      decreases Subtree(nodes, c), 2
      ensures Valid() && calls == old(calls) + sub
      ensures r.Done? ==> WritLoop(m0, nodes, p, dirMode, fileMode, todo - {c}, done + {c}, made + sub)
      ensures r.Failed? ==> Rewritten(m0, nodes, p, dirMode, fileMode)
      ensures r.Failed? ==> Blame(m0, faults, p, dirMode, fileMode, r.error) && !Writable(m0, faults, p)
      ensures r.Failed? ==> ChmodsUnder(made + sub, p, true) && ChildrenFirst(made + sub)
    {
      WritUntouched(m0, nodes, p, dirMode, fileMode, done, c);
      r, sub := MakeWritable(c, dirMode, fileMode);
      ChildrenFirstAppend(made, sub, p, done, c);
      CallsAppend(made, sub, {Op.Chmod}, p, c);
      if r.Failed? {
        BlameLifts(m0, old(nodes), faults, p, c, dirMode, fileMode, r.error);
        BlameNotWritable(m0, faults, p, dirMode, fileMode, r.error);
        WritFails(m0, old(nodes), nodes, p, dirMode, fileMode, done, c);
      } else {
        WritStep(m0, old(nodes), nodes, p, dirMode, fileMode, done, c);
      }
    }

    /** The invariant of the loop of `MakeWritable` over the children of `p`:
        exactly the subtrees of the visited children are `chmod`-ed. */
    ghost predicate WritLoop(m0: map<Path, Node>, m: map<Path, Node>, p: Path, dirMode: int, fileMode: int,
                             todo: set<Path>, done: set<Path>, made: seq<Call>)
    {
      && ValidTree(m0) && ValidTree(m) && IsDirIn(m0, p)
      && todo !! done && todo + done == Children(m0, p)
      && (forall q :: q in m0 <==> q in m)
      && (forall q :: q in m0 ==> m[q] == if InDone(q, p, done) then Chmodded(m0[q], dirMode, fileMode) else m0[q])
      && (forall q :: q in m0 && InDone(q, p, done) ==> WritableEntry(m0, faults, q))
      && ChmodsUnder(made, p, true) && ChildrenFirst(made) && CallsInDone(made, p, done)
    }

    /** The subtree of a child not yet visited is as it was. */
    lemma WritUntouched(m0: map<Path, Node>, m: map<Path, Node>, p: Path, dirMode: int, fileMode: int,
                        done: set<Path>, c: Path)
      requires forall q :: q in m0 <==> q in m
      requires forall q :: q in m0 ==> m[q] == if InDone(q, p, done) then Chmodded(m0[q], dirMode, fileMode) else m0[q]
      requires |c| == |p| + 1 && c !in done
      ensures forall s :: IsPrefix(c, s) ==> (s in m <==> s in m0)
      ensures forall s :: s in m && IsPrefix(c, s) ==> m[s] == m0[s]
    {
      forall s | IsPrefix(c, s) && s in m0 ensures !InDone(s, p, done) {
        assert s[..|p| + 1] == s[..|c|];
      }
    }

    /** A child made writable joins `done`. */
    lemma WritStep(m0: map<Path, Node>, before: map<Path, Node>, after: map<Path, Node>, p: Path,
                   dirMode: int, fileMode: int, done: set<Path>, c: Path)
      requires IsStrictPrefix(p, c) && |c| == |p| + 1 && c !in done
      requires forall q :: q in m0 <==> q in before
      requires forall q :: q in m0 ==> before[q] == if InDone(q, p, done) then Chmodded(m0[q], dirMode, fileMode) else m0[q]
      requires forall q :: q in m0 && InDone(q, p, done) ==> WritableEntry(m0, faults, q)
      requires Written(before, after, c, dirMode, fileMode) && Writable(before, faults, c)
      ensures forall q :: q in m0 <==> q in after
      ensures forall q :: q in m0 ==>
        after[q] == if InDone(q, p, done + {c}) then Chmodded(m0[q], dirMode, fileMode) else m0[q]
      ensures forall q :: q in m0 && InDone(q, p, done + {c}) ==> WritableEntry(m0, faults, q)
    {
      WritUntouched(m0, before, p, dirMode, fileMode, done, c);
      forall q | q in m0 ensures InDone(q, p, done + {c}) <==> InDone(q, p, done) || IsPrefix(c, q) {
        if |q| > |p| && q[..|p| + 1] == c {
          assert q[..|c|] == c;
        }
      }
    }

    /** A failure below a child leaves only `chmod`-ed or untouched nodes. */
    lemma WritFails(m0: map<Path, Node>, before: map<Path, Node>, after: map<Path, Node>, p: Path,
                    dirMode: int, fileMode: int, done: set<Path>, c: Path)
      requires IsStrictPrefix(p, c) && |c| == |p| + 1 && c !in done
      requires forall d :: d in done ==> |d| == |p| + 1 && IsStrictPrefix(p, d)
      requires forall q :: q in m0 <==> q in before
      requires forall q :: q in m0 ==> before[q] == if InDone(q, p, done) then Chmodded(m0[q], dirMode, fileMode) else m0[q]
      requires Rewritten(before, after, c, dirMode, fileMode)
      ensures Rewritten(m0, after, p, dirMode, fileMode)
    {
      WritUntouched(m0, before, p, dirMode, fileMode, done, c);
      forall q | q in m0
        ensures after[q] == m0[q] || (IsPrefix(p, q) && after[q] == Chmodded(m0[q], dirMode, fileMode))
      {
        if InDone(q, p, done) {
          InDoneBelow(q, p, done);
        } else if IsPrefix(c, q) {
          PrefixTrans(p, c, q);
        }
      }
    }

    /** After the last child, the `chmod` of `p` decides the outcome. */
    lemma WritEnds(m0: map<Path, Node>, m: map<Path, Node>, m1: map<Path, Node>, p: Path,
                   dirMode: int, fileMode: int, done: set<Path>, ok: bool)
      requires ValidTree(m0) && IsDirIn(m0, p) && done == Children(m0, p)
      requires forall q :: q in m0 <==> q in m
      requires forall q :: q in m0 ==> m[q] == if InDone(q, p, done) then Chmodded(m0[q], dirMode, fileMode) else m0[q]
      requires forall q :: q in m0 && InDone(q, p, done) ==> WritableEntry(m0, faults, q)
      requires !Refuses(Op.OpenDir, p)
      requires ok <==> !Refuses(Op.Chmod, p)
      requires m1 == if ok then m[p := Chmodded(m[p], dirMode, dirMode)] else m
      ensures Rewritten(m0, m1, p, dirMode, fileMode)
      ensures ok <==> Writable(m0, faults, p)
      ensures ok ==> Written(m0, m1, p, dirMode, fileMode)
      ensures !ok ==> Blame(m0, faults, p, dirMode, fileMode, ChmodDirFailed(p, dirMode))
    {
      forall q | q in m0 ensures IsPrefix(p, q) <==> q == p || InDone(q, p, done) {
        PrefixCases(p, q);
        if IsStrictPrefix(p, q) {
          ChildOnTheWay(m0, p, q);
        }
        if InDone(q, p, done) {
          InDoneBelow(q, p, done);
        }
      }
      assert !InDone(p, p, done);
    }

    /** The directory `q`, at or below `p`, cannot be opened for listing. */
    ghost predicate Unopenable(m: map<Path, Node>, p: Path, q: Path)
    {
      IsDirIn(m, q) && IsPrefix(p, q) && Refuses(Op.OpenDir, q)
    }

    /** Every directory at or below `p` can be opened, so a recursive
        iterator over `p` runs to its end. */
    ghost predicate Listable(m: map<Path, Node>, p: Path)
    {
      forall q :: !Unopenable(m, p, q)
    }

    /** A directory at or below `dir` the host refuses to open, if any. */
    method FindUnopenable(dir: Path) returns (found: Option<Path>)
      ensures found.None? <==> Listable(nodes, dir)
      ensures found.Some? ==> Unopenable(nodes, dir, found.value)
    {
      var locked := set q | q in nodes && IsPrefix(dir, q) && nodes[q].Dir? && Refuses(Op.OpenDir, q);
      assert forall q :: Unopenable(nodes, dir, q) ==> q in locked;
      if locked == {} {
        return None;
      }
      var q :| q in locked;
      assert Unopenable(nodes, dir, q);
      return Some(q);
    }

    /** `size($dir)`: the sum of the sizes of the regular files below `dir`;
        the iterator throws on anything but a directory and on a directory
        it cannot open, at any depth. */
    method Size(dir: Path) returns (r: Result<nat>)
      ensures r.Ok? <==> IsDirIn(nodes, dir) && Listable(nodes, dir)
      ensures !IsDirIn(nodes, dir) ==> r == Err(CannotOpenDir(dir))
      ensures IsDirIn(nodes, dir) && r.Err? ==> r.error.CannotOpenDir? && Unopenable(nodes, dir, r.error.path)
      ensures r.Ok? ==> r.value == TotalSize(nodes, FilesBelow(nodes, dir))
    {
      if !IsDirIn(nodes, dir) {
        return Err(CannotOpenDir(dir));
      }
      var locked := FindUnopenable(dir);
      if locked.Some? {
        return Err(CannotOpenDir(locked.value));
      }
      var todo := FilesBelow(nodes, dir);
      var total := 0;
      while todo != {}
        invariant total + TotalSize(nodes, todo) == TotalSize(nodes, FilesBelow(nodes, dir))
        decreases todo
      {
        var q :| q in todo;
        TotalSizeRemove(nodes, todo, q);
        total := total + SizeOf(nodes, q);
        todo := todo - {q};
      }
      return Ok(total);
    }

    /** `ls($dir)`: the pathnames of the non-directory entries below `dir`,
        each once, in the order of `le` (the `natsort` comparison); anything
        but a directory is refused, and a directory the iterator cannot open
        makes it throw. */
    method Ls(dir: Path, le: (Path, Path) -> bool) returns (r: Result<seq<Path>>)
      requires TotalPreorder(le)
      ensures r.Ok? <==> IsDirIn(nodes, dir) && Listable(nodes, dir)
      ensures !IsDirIn(nodes, dir) ==> r == Err(NotADirectory(dir))
      ensures IsDirIn(nodes, dir) && r.Err? ==> r.error.CannotOpenDir? && Unopenable(nodes, dir, r.error.path)
      ensures r.Ok? ==> Sorted(r.value, le)
      ensures r.Ok? ==> multiset(r.value) == multiset(LeavesBelow(nodes, dir))
    {
      if !IsDirIn(nodes, dir) {
        return Err(NotADirectory(dir));
      }
      var locked := FindUnopenable(dir);
      if locked.Some? {
        return Err(CannotOpenDir(locked.value));
      }
      var todo := LeavesBelow(nodes, dir);
      var out: seq<Path> := [];
      while todo != {}
        invariant todo <= LeavesBelow(nodes, dir)
        invariant Sorted(out, le)
        invariant multiset(out) == multiset(LeavesBelow(nodes, dir) - todo)
        decreases todo
      {
        var q :| q in todo;
        InsertSorted(out, q, le);
        MoveOne(LeavesBelow(nodes, dir), todo, out, q, le);
        out := Insert(out, q, le);
        todo := todo - {q};
      }
      assert LeavesBelow(nodes, dir) - {} == LeavesBelow(nodes, dir);
      return Ok(out);
    }

    /** `rename($o, $t)` of the host, into a missing `t` (or onto `o` itself)
        whose parent is a directory; it cannot move a directory into itself. */
    method OsRename(o: Path, t: Path) returns (ok: bool)
      requires Valid() && IsDirIn(nodes, Parent(t)) && (t == o || t !in nodes)
      modifies this`nodes
      ensures Valid()
      ensures ok <==> o in old(nodes) && !IsStrictPrefix(o, t) && !Refuses(Op.Rename, o)
      ensures nodes == if ok && o != t then MoveTree(old(nodes), o, t) else old(nodes)
    {
      ok := o in nodes && !IsStrictPrefix(o, t) && !Refuses(Op.Rename, o);
      if ok && o != t {
        MoveTreeFacts(nodes, o, t);
        nodes := MoveTree(nodes, o, t);
      }
    }

    /** `rename($o, $t, $overwrite)` goes through: the two checks pass, the
        parent of `t` is or can be made a directory, `t` (unless it is `o`)
        can be deleted, neither path lies strictly inside the other, and the
        host lets `o` be moved. */
    ghost predicate RenameAllowed(m: map<Path, Node>, o: Path, t: Path, overwrite: bool)
    {
      && (overwrite || !Exists(m, t))
      && Exists(m, o)
      && (IsDirIn(m, Parent(t)) || MkdirAllowed(m, Parent(t)))
      && (o == t || Removable(m, t))
      && !IsStrictPrefix(o, t) && !IsStrictPrefix(t, o)
      && !Refuses(Op.Rename, o)
    }

    /** `rename($o, $t, $overwrite)`: refuses an existing `t` unless
        `overwrite`, then a missing `o`; creates the parent of `t`, deletes
        `t` when it is not `o`, and moves `o` there. */
    method Rename(o: Path, t: Path, overwrite: bool) returns (res: Outcome)
      requires Valid()
      modifies this
      ensures Valid()
      ensures res.Done? <==> RenameAllowed(old(nodes), o, t, overwrite)
      ensures !overwrite && Exists(old(nodes), t) ==> res == Failed(AlreadyExists(t)) && nodes == old(nodes)
      ensures (overwrite || !Exists(old(nodes), t)) && !Exists(old(nodes), o) ==>
        res == Failed(NotFound(o)) && nodes == old(nodes)
      ensures res.Failed? ==>
        res.error in {AlreadyExists(t), NotFound(o), MkdirFailed(Parent(t), DirMode), RenameFailed(o, t)} ||
        (o != t && DeleteBlame(old(nodes), t, res.error))
      ensures res == Failed(MkdirFailed(Parent(t), DirMode)) ==>
        !IsDirIn(old(nodes), Parent(t)) && !MkdirAllowed(old(nodes), Parent(t))
      ensures res == Failed(RenameFailed(o, t)) ==>
        IsStrictPrefix(o, t) || IsStrictPrefix(t, o) || Refuses(Op.Rename, o)
      ensures res.Done? ==> Exists(old(nodes), o) && (overwrite || !Exists(old(nodes), t))
      ensures res.Done? ==> forall q :: q in old(nodes) && IsPrefix(o, q) ==>
        Rebase(q, o, t) in nodes && nodes[Rebase(q, o, t)] == old(nodes)[q]
      ensures res.Done? && o != t ==> forall q :: q in nodes ==> !IsPrefix(o, q)
      ensures res.Done? ==> forall q :: q in old(nodes) && !IsPrefix(o, q) && !IsPrefix(t, q) ==>
        q in nodes && nodes[q] == old(nodes)[q]
      ensures res.Done? ==> forall q :: q in nodes ==> MovedEntry(old(nodes), nodes, o, t, q)
    {
      if !overwrite && Exists(nodes, t) {
        return Failed(AlreadyExists(t));
      }
      if !Exists(nodes, o) {
        return Failed(NotFound(o));
      }
      ghost var m0 := nodes;
      res := CreateDir(Parent(t), DirMode);
      if res.Failed? {
        return;
      }
      ghost var m1 := nodes;
      TargetKept(m0, m1, t);
      if o != t {
        ghost var made;
        res, made := Delete(t);
        if res.Failed? {
          return;
        }
        assert o in nodes <==> !IsStrictPrefix(t, o) by {
          if !IsStrictPrefix(t, o) {
            assert !IsPrefix(t, o);
          }
        }
      }
      ghost var m2 := nodes;
      var ok := OsRename(o, t);
      if !ok {
        return Failed(RenameFailed(o, t));
      }
      if o == t {
        RenameInPlace(m0, nodes, o);
      } else {
        RenameMoves(m0, m1, m2, nodes, o, t);
      }
      return Done;
    }

    /** Creating the parent of `t` leaves `t` and everything below it as it was. */
    lemma TargetKept(m0: map<Path, Node>, m1: map<Path, Node>, t: Path)
      requires ValidTree(m0) && Grown(m0, m1, Parent(t), DirMode)
      ensures Removable(m1, t) <==> Removable(m0, t)
      ensures forall e :: DeleteBlame(m1, t, e) ==> DeleteBlame(m0, t, e)
    {
      forall q | IsPrefix(t, q) ensures (q in m1 <==> q in m0) && (q in m1 ==> m1[q] == m0[q]) {
      }
      if Removable(m0, t) {
        forall q | q in m1 && IsPrefix(t, q) ensures Deletable(m1, q) {
          assert Deletable(m0, q);
        }
      }
      if Removable(m1, t) {
        forall q | q in m0 && IsPrefix(t, q) ensures Deletable(m0, q) {
          assert Deletable(m1, q);
        }
      }
    }

    /** After a successful `rename`, an entry is one that was there outside
        `o`, the rebased copy of one below `o`, or a directory created on the
        way to `t`. */
    ghost predicate MovedEntry(m0: map<Path, Node>, m: map<Path, Node>, o: Path, t: Path, q: Path)
      requires q in m
    {
      || (q in m0 && !IsPrefix(o, q) && m[q] == m0[q])
      || (IsPrefix(t, q) && o + q[|t|..] in m0 && m[q] == m0[o + q[|t|..]])
      || (q !in m0 && IsStrictPrefix(q, t) && m[q] == Dir(DirMode))
    }

    /** `rename` of `o` onto itself changes nothing. */
    lemma RenameInPlace(m0: map<Path, Node>, m: map<Path, Node>, o: Path)
      requires Grown(m0, m, Parent(o), DirMode) && o in m0
      requires ValidTree(m0)
      ensures forall q :: q in m0 && IsPrefix(o, q) ==> Rebase(q, o, o) in m && m[Rebase(q, o, o)] == m0[q]
      ensures forall q :: q in m ==> MovedEntry(m0, m, o, o, q)
    {
      forall q | q in m ensures MovedEntry(m0, m, o, o, q) {
        if q !in m0 {
          assert IsPrefix(q, Parent(o));
          if o != [] {
            assert q == Parent(o)[..|q|];
            assert q == o[..|q|];
          }
        } else if IsPrefix(o, q) {
          assert o + q[|o|..] == q;
        }
      }
    }

    /** `rename` of `o` to a different `t`, after the parent of `t` was created
        and `t` deleted. */
    lemma RenameMoves(m0: map<Path, Node>, m1: map<Path, Node>, m2: map<Path, Node>, m3: map<Path, Node>,
                      o: Path, t: Path)
      requires ValidTree(m0) && ValidTree(m2) && o in m0 && o != t
      requires Grown(m0, m1, Parent(t), DirMode) && IsDirIn(m1, Parent(t))
      requires Shrunk(m1, m2, t) && forall q :: q in m2 ==> !IsPrefix(t, q)
      requires o in m2 && !IsStrictPrefix(o, t) && !Refuses(Op.Rename, o)
      requires m3 == MoveTree(m2, o, t)
      ensures forall q :: q in m0 && IsPrefix(o, q) ==> Rebase(q, o, t) in m3 && m3[Rebase(q, o, t)] == m0[q]
      ensures forall q :: q in m3 ==> !IsPrefix(o, q)
      ensures forall q :: q in m0 && !IsPrefix(o, q) && !IsPrefix(t, q) ==> q in m3 && m3[q] == m0[q]
      ensures forall q :: q in m3 ==> MovedEntry(m0, m3, o, t, q)
    {
      assert !IsPrefix(t, o);
      assert Refused(faults, Op.Rename, o) == Refuses(Op.Rename, o);
      assert o != [];
      assert IsDirIn(m2, Parent(t)) by {
        assert !IsPrefix(t, Parent(t)) by {
          assert t != [];
        }
      }
      MoveTreeFacts(m2, o, t);
      SameBelowOrigin(m0, m1, m2, o, t);
      forall q | q in m3 ensures MovedEntry(m0, m3, o, t, q) {
        if q in m2 && !IsPrefix(o, q) {
          if q !in m0 {
            assert IsPrefix(q, Parent(t));
            assert t != [];
            assert q == t[..|q|];
          }
        }
      }
    }

    /** Neither creating the parent of `t` nor deleting `t` touches the subtree
        at `o` when `o` and `t` are apart. */
    lemma SameBelowOrigin(m0: map<Path, Node>, m1: map<Path, Node>, m2: map<Path, Node>, o: Path, t: Path)
      requires Grown(m0, m1, Parent(t), DirMode) && Shrunk(m1, m2, t)
      requires !IsPrefix(o, t) && !IsPrefix(t, o)
      ensures forall q :: IsPrefix(o, q) ==> (q in m2 <==> q in m0)
      ensures forall q :: q in m2 && IsPrefix(o, q) ==> m2[q] == m0[q]
    {
      forall q | IsPrefix(o, q) ensures !IsPrefix(t, q) && !IsPrefix(q, Parent(t)) {
      }
    }

    /** Both `fopen`s of a file copy from `o` to `t` succeed. */
    ghost predicate Opens(m: map<Path, Node>, o: Path, t: Path)
    {
      !Refuses(Op.OpenRead, o) && !IsDirIn(m, t) && !Refuses(Op.OpenWrite, t)
    }

    /** What the file branch of `copy($o, $t)` leaves: the parent of `t` is
        created (or the copy raises); when both files open, the stream copy
        may fail, which raises; when `t` is not a link, `t` is truncated
        (keeping its mode, or `0666` when new) and then holds as many bytes as
        `o` has left, unless the stream copy failed; a (dangling) link is
        written through to a file outside the tree and stays as it is; a
        failed `fopen` is silently ignored. */
    ghost predicate FileCopied(m0: map<Path, Node>, m: map<Path, Node>, o: Path, t: Path, res: Outcome)
      requires IsFileIn(m0, o)
    {
      var reached := IsDirIn(m0, Parent(t)) || MkdirAllowed(m0, Parent(t));
      var opens := reached && Opens(m0, o, t);
      var writes := opens && !(t in m0 && m0[t].Link?);
      var mode := if IsFileIn(m0, t) then m0[t].mode else FileMode;
      var size := if o == t then 0 else m0[o].size;
      && (forall q :: q in m0 && q != t ==> q in m && m[q] == m0[q])
      && (forall q :: q in m && q !in m0 ==> q == t || (IsPrefix(q, Parent(t)) && m[q] == Dir(DirMode)))
      && (res.Failed? <==> !reached || (opens && Refuses(Op.StreamCopy, t)))
      && (!reached ==> res == Failed(MkdirFailed(Parent(t), DirMode)))
      && (reached && res.Failed? ==> res == Failed(CopyFailed(o, t)))
      && (writes && res.Failed? ==> t in m && m[t] == File(0, mode))
      && (res.Done? && writes ==> t in m && m[t] == File(size, mode))
      && (!writes ==> (t in m <==> t in m0) && (t in m ==> m[t] == m0[t]))
    }

    /** The file branch of `copy($o, $t)`. */
    method CopyFile(o: Path, t: Path) returns (res: Outcome)
      requires Valid() && IsFileIn(nodes, o)
      modifies this`nodes
      ensures Valid()
      ensures FileCopied(old(nodes), nodes, o, t, res)
    {
      ghost var m0 := nodes;
      res := CreateDir(Parent(t), DirMode);
      if res.Failed? {
        CopyParentFails(m0, nodes, o, t);
        return;
      }
      ghost var m1 := nodes;
      ParentMade(m0, m1, o, t);
      if !Refuses(Op.OpenRead, o) && !IsDirIn(nodes, t) && !Refuses(Op.OpenWrite, t) {
        if t in nodes && nodes[t].Link? {
          if Refuses(Op.StreamCopy, t) {
            return Failed(CopyFailed(o, t));
          }
          return Done;
        }
        var mode := if IsFileIn(nodes, t) then nodes[t].mode else FileMode;
        WriteFileValid(nodes, t, File(0, mode));
        nodes := nodes[t := File(0, mode)];
        var size := nodes[o].size;
        if Refuses(Op.StreamCopy, t) {
          return Failed(CopyFailed(o, t));
        }
        WriteFileValid(nodes, t, File(size, mode));
        nodes := nodes[t := File(size, mode)];
      }
      return Done;
    }

    /** A failed `mkdir` of the parent leaves `t` and `o` as they were. */
    lemma CopyParentFails(m0: map<Path, Node>, m: map<Path, Node>, o: Path, t: Path)
      requires ValidTree(m0) && IsFileIn(m0, o) && Grown(m0, m, Parent(t), DirMode)
      requires !(IsDirIn(m0, Parent(t)) || MkdirAllowed(m0, Parent(t)))
      ensures FileCopied(m0, m, o, t, Failed(MkdirFailed(Parent(t), DirMode)))
    {
      ParentMade(m0, m, o, t);
    }

    /** Creating the parent of `t` adds only its missing ancestors. */
    lemma ParentMade(m0: map<Path, Node>, m1: map<Path, Node>, o: Path, t: Path)
      requires ValidTree(m0) && Grown(m0, m1, Parent(t), DirMode)
      ensures t in m1 <==> t in m0
      ensures t in m1 ==> m1[t] == m0[t]
    {
      assert t != [] ==> |Parent(t)| < |t|;
    }

    /** Writing a file at `t` whose parent is a directory and that is not a
        directory keeps the tree valid. */
    lemma WriteFileValid(m: map<Path, Node>, t: Path, n: Node)
      requires ValidTree(m) && IsDirIn(m, Parent(t)) && !IsDirIn(m, t) && n.File?
      ensures ValidTree(m[t := n])
    {
      forall q, k | q in m[t := n] && 0 <= k < |q| ensures q[..k] in m[t := n] && m[t := n][q[..k]].Dir? {
        if q == t {
          assert q[..k] == Parent(t)[..k];
          if k < |Parent(t)| {
            assert Parent(t)[..k] in m;
          }
        } else {
          assert q[..k] in m && m[q[..k]].Dir?;
        }
      }
    }

    /** The entry `q` of the origin `o` has been reproduced under `t`: a
        directory as a directory, a file as an entry unless one of its two
        `fopen`s failed (which `copy` ignores); links make `copy` raise. */
    ghost predicate Copied(m0: map<Path, Node>, m: map<Path, Node>, o: Path, t: Path, q: Path)
      requires q in m0 && IsPrefix(o, q)
    {
      var r := Rebase(q, o, t);
      && !m0[q].Link?
      && (m0[q].Dir? ==> IsDirIn(m, r))
      && (m0[q].File? ==> r in m || Refuses(Op.OpenRead, q) || Refuses(Op.OpenWrite, r))
    }

    /** What the walk over the origin's entries keeps, for disjoint origin
        and target, relative to the tree `mc` it started from (the target
        emptied): the origin untouched, nothing changed outside the target,
        everything below the target the image of an origin entry of the same
        kind (and size), and every visited entry copied. */
    ghost predicate WalkLoop(mc: map<Path, Node>, m: map<Path, Node>, o: Path, t: Path, walk: seq<Path>)
    {
      && ValidTree(mc) && ValidTree(m) && Disjoint(o, t) && IsDirIn(mc, t)
      && (forall q :: IsPrefix(o, q) ==> (q in m <==> q in mc) && (q in m ==> m[q] == mc[q]))
      && (forall q :: q in mc && !IsStrictPrefix(t, q) ==> q in m && m[q] == mc[q])
      && (forall q :: q in m && !IsStrictPrefix(t, q) ==> q in mc)
      && (forall r :: r in m && IsStrictPrefix(t, r) ==> o + r[|t|..] in mc && KindOK(mc[o + r[|t|..]], m[r]))
      && (forall q :: q in walk ==> q in mc && IsStrictPrefix(o, q) && Copied(mc, m, o, t, q))
    }

    /** `copy($o, $t)` of a directory onto a disjoint target: the origin is
        unchanged, the target is a directory holding an image of every entry
        of the origin and nothing else, and outside the target only missing
        ancestors of the target were created. */
    ghost predicate Mirror(m0: map<Path, Node>, m: map<Path, Node>, o: Path, t: Path)
    {
      && (forall q :: IsPrefix(o, q) ==> (q in m <==> q in m0) && (q in m ==> m[q] == m0[q]))
      && IsDirIn(m, t)
      && (forall q :: q in m0 && IsStrictPrefix(o, q) ==> Copied(m0, m, o, t, q))
      && (forall r :: r in m && IsStrictPrefix(t, r) ==> o + r[|t|..] in m0 && KindOK(m0[o + r[|t|..]], m[r]))
      && (forall q :: q in m0 && !IsPrefix(t, q) ==> q in m && m[q] == m0[q])
      && (forall q :: q in m && !IsPrefix(t, q) ==> q in m0 || (IsStrictPrefix(q, t) && m[q] == Dir(DirMode)))
    }

    /** The host refuses the `mkdir` of the image of an origin directory
        lying on the way to `d`. */
    ghost predicate ImageMkdirRefused(m: map<Path, Node>, o: Path, t: Path, d: Path)
    {
      exists a :: a in m && IsStrictPrefix(o, a) && m[a].Dir? && IsPrefix(Rebase(a, o, t), d) &&
        Refuses(Op.Mkdir, Rebase(a, o, t))
    }

    /** Why making and emptying the target `t` can raise: `t` cannot be made
        a directory, cannot be listed, or `delete` is refused below it. */
    ghost predicate TargetBlame(m: map<Path, Node>, t: Path, e: FsError)
    {
      match e
      case MkdirFailed(d, mode) => d == t && mode == DirMode && !IsDirIn(m, t) && !MkdirAllowed(m, t)
      case CannotOpenDir(q) => (q == t && Refuses(Op.OpenDir, t)) || (IsStrictPrefix(t, q) && DeleteBlame(m, t, e))
      case DeleteFailed(q) => IsStrictPrefix(t, q) && DeleteBlame(m, t, e)
      case DeleteDirFailed(q) => IsStrictPrefix(t, q) && DeleteBlame(m, t, e)
      case _ => false
    }

    /** Why the walk over the origin `o` can raise: the image of a directory
        cannot be made, a directory cannot be opened, an entry is a
        (dangling) link, or a stream copy fails. */
    ghost predicate WalkBlame(m: map<Path, Node>, o: Path, t: Path, e: FsError)
    {
      match e
      case MkdirFailed(d, mode) => mode == DirMode && ImageMkdirRefused(m, o, t, d)
      case CannotOpenDir(q) => Unopenable(m, o, q)
      case NotFound(q) => q in m && IsStrictPrefix(o, q) && m[q].Link?
      case CopyFailed(q, r) => IsFileIn(m, q) && IsStrictPrefix(o, q) && r == Rebase(q, o, t) && Refuses(Op.StreamCopy, r)
      case _ => false
    }

    /** Why `copy($o, $t)` of a directory onto a disjoint target can raise. */
    ghost predicate DirCopyBlame(m: map<Path, Node>, o: Path, t: Path, e: FsError)
    {
      TargetBlame(m, t, e) || WalkBlame(m, o, t, e)
    }

    /** The walk gets through the entry `q` of the origin: it is no link; a
        directory can be opened and its image made; a file's stream copy is
        allowed. */
    ghost predicate ItemAllowed(m: map<Path, Node>, o: Path, t: Path, q: Path)
      requires q in m && IsPrefix(o, q)
    {
      match m[q]
      case Link => false
      case Dir(_) => !Refuses(Op.OpenDir, q) && !Refuses(Op.Mkdir, Rebase(q, o, t))
      case File(_, _) => !Refuses(Op.StreamCopy, Rebase(q, o, t))
    }

    /** The walk gets through the origin `o` and every entry below it. */
    ghost predicate WalkAllowed(m: map<Path, Node>, o: Path, t: Path)
    {
      !Refuses(Op.OpenDir, o) && forall q :: q in m && IsStrictPrefix(o, q) ==> ItemAllowed(m, o, t, q)
    }

    /** The directory branch of `copy($o, $t)` gets through: the target is or
        can be made a directory, it can be emptied, and the walk gets through. */
    ghost predicate CopyAllowed(m: map<Path, Node>, o: Path, t: Path)
    {
      (IsDirIn(m, t) || MkdirAllowed(m, t)) && Clearable(m, t) && WalkAllowed(m, o, t)
    }

    /** A blamed cause of failure rules out that the walk gets through. */
    lemma WalkBlameRefutes(m: map<Path, Node>, o: Path, t: Path, e: FsError)
      requires WalkBlame(m, o, t, e)
      ensures !WalkAllowed(m, o, t)
    {
      match e
      case MkdirFailed(d, _) =>
        var a :| a in m && IsStrictPrefix(o, a) && m[a].Dir? && IsPrefix(Rebase(a, o, t), d) &&
          Refuses(Op.Mkdir, Rebase(a, o, t));
        assert !ItemAllowed(m, o, t, a);
      case CannotOpenDir(q) =>
        PrefixCases(o, q);
        assert q != o ==> !ItemAllowed(m, o, t, q);
      case NotFound(q) =>
        assert !ItemAllowed(m, o, t, q);
      case CopyFailed(q, _) =>
        assert !ItemAllowed(m, o, t, q);
    }

    /** A blamed cause of failure rules out that the directory copy gets through. */
    lemma BlameRefutesCopy(m: map<Path, Node>, o: Path, t: Path, e: FsError)
      requires DirCopyBlame(m, o, t, e)
      ensures !CopyAllowed(m, o, t)
    {
      if WalkBlame(m, o, t, e) {
        WalkBlameRefutes(m, o, t, e);
      } else if !e.MkdirFailed? && !(e == CannotOpenDir(t)) {
        assert e.path in m && IsStrictPrefix(t, e.path) && !Deletable(m, e.path);
      }
    }

    /** The walk's blame depends only on the origin's subtree. */
    lemma WalkBlameKept(m1: map<Path, Node>, m2: map<Path, Node>, o: Path, t: Path, e: FsError)
      requires forall x :: IsPrefix(o, x) ==> (x in m1 <==> x in m2) && (x in m1 ==> m1[x] == m2[x])
      requires WalkBlame(m1, o, t, e)
      ensures WalkBlame(m2, o, t, e)
    {
      if e.MkdirFailed? {
        var a :| a in m1 && IsStrictPrefix(o, a) && m1[a].Dir? && IsPrefix(Rebase(a, o, t), e.path) &&
          Refuses(Op.Mkdir, Rebase(a, o, t));
        assert a in m2 && m2[a] == m1[a];
      }
    }

    /** Whether the walk gets through depends only on the origin's subtree. */
    lemma WalkAllowedKept(m1: map<Path, Node>, m2: map<Path, Node>, o: Path, t: Path)
      requires forall x :: IsPrefix(o, x) ==> (x in m1 <==> x in m2) && (x in m1 ==> m1[x] == m2[x])
      requires WalkAllowed(m1, o, t)
      ensures WalkAllowed(m2, o, t)
    {
      forall q | q in m2 && IsStrictPrefix(o, q) ensures ItemAllowed(m2, o, t, q) {
        assert ItemAllowed(m1, o, t, q);
      }
    }

    /** Making the target `t` adds only `t` and its missing ancestors, so
        what lies strictly below `t` is as it was. */
    lemma ClearKept(m0: map<Path, Node>, m1: map<Path, Node>, t: Path)
      requires Grown(m0, m1, t, DirMode) && IsDirIn(m1, t)
      ensures Clearable(m0, t) ==> Clearable(m1, t)
      ensures forall e :: DeleteBlame(m1, t, e) && e != DeleteDirFailed(t) ==> TargetBlame(m0, t, e)
    {
      if Clearable(m0, t) {
        forall q | q in m1 && IsStrictPrefix(t, q) ensures Deletable(m1, q) {
          assert Deletable(m0, q);
        }
      }
      forall e | DeleteBlame(m1, t, e) && e != DeleteDirFailed(t) ensures TargetBlame(m0, t, e) {
        PrefixCases(t, e.path);
      }
    }

    /** The image of an origin directory that cannot be made: some directory
        on the way to it, below the target, is missing and its `mkdir` is
        refused, since every image already there is a directory. */
    lemma ImageMkdirBlame(mc: map<Path, Node>, m: map<Path, Node>, o: Path, t: Path, walk: seq<Path>, a: Path)
      requires WalkLoop(mc, m, o, t, walk)
      requires a in mc && IsStrictPrefix(o, a) && mc[a].Dir?
      requires !IsDirIn(m, Rebase(a, o, t)) && !MkdirAllowed(m, Rebase(a, o, t))
      ensures ImageMkdirRefused(m, o, t, Rebase(a, o, t))
    {
      var d := Rebase(a, o, t);
      assert IsDirIn(m, t);
      forall k | 0 < k <= |t| ensures MkdirStep(m, d, k) {
        assert d[..k] == t[..k];
        if k < |t| {
          assert t[..k] in m;
        } else {
          assert t[..k] == t;
        }
      }
      var k :| 0 < k <= |d| && !MkdirStep(m, d, k);
      var x := d[..k];
      assert k == |d| ==> x == d;
      ImagePrefix(a, o, t, x);
      var b := o + x[|t|..];
      assert b in mc && mc[b].Dir? by {
        if b != a {
          assert a[..|b|] == b;
        }
      }
      assert x !in m;
      assert b in m && m[b] == mc[b];
    }

    /** The parent of the image of a file entry cannot be made: the same
        cause, for the origin directory holding the file. */
    lemma FileParentBlame(mc: map<Path, Node>, m: map<Path, Node>, o: Path, t: Path, walk: seq<Path>, q: Path)
      requires WalkLoop(mc, m, o, t, walk)
      requires q in mc && IsStrictPrefix(o, q)
      requires !IsDirIn(m, Parent(Rebase(q, o, t))) && !MkdirAllowed(m, Parent(Rebase(q, o, t)))
      ensures ImageMkdirRefused(m, o, t, Parent(Rebase(q, o, t)))
    {
      var a := Parent(q);
      assert IsDirIn(m, t);
      assert q[..|a|] == a;
      assert IsPrefix(o, a);
      assert Parent(Rebase(q, o, t)) == Rebase(a, o, t);
      ImageMkdirBlame(mc, m, o, t, walk, a);
    }

    /** `copy($o, $t, $overwrite)`. */
    method Copy(o: Path, t: Path, overwrite: bool) returns (res: Outcome, ghost walk: seq<Path>)
      requires Valid()
      modifies this
      ensures Valid()
      ensures ParentsFirst(walk)
      ensures forall i :: 0 <= i < |walk| ==> IsStrictPrefix(o, walk[i])
      ensures !Exists(old(nodes), o) ==> res == Failed(NotFound(o)) && nodes == old(nodes)
      ensures Exists(old(nodes), o) && !overwrite && Exists(old(nodes), t) ==>
        res == Failed(AlreadyExists(t)) && nodes == old(nodes)
      ensures IsFileIn(old(nodes), o) && (overwrite || !Exists(old(nodes), t)) ==>
        FileCopied(old(nodes), nodes, o, t, res)
      ensures IsDirIn(old(nodes), o) && (overwrite || !Exists(old(nodes), t)) && Disjoint(o, t) ==>
        && (res.Failed? ==> DirCopyBlame(old(nodes), o, t, res.error))
        && (CopyAllowed(old(nodes), o, t) ==> res.Done?)
        && (res.Done? ==> Mirror(old(nodes), nodes, o, t))
        && (res.Done? ==> forall q :: q in walk <==> q in old(nodes) && IsStrictPrefix(o, q))
    {
      walk := [];
      if !Exists(nodes, o) {
        return Failed(NotFound(o)), walk;
      }
      if !overwrite && Exists(nodes, t) {
        return Failed(AlreadyExists(t)), walk;
      }
      if !IsDirIn(nodes, o) {
        res := CopyFile(o, t);
        return;
      }
      res, walk := CopyDir(o, t);
    }

    /** The directory branch of `copy($o, $t)`: make the target, empty it,
        then walk the origin's entries. */
    method CopyDir(o: Path, t: Path) returns (res: Outcome, ghost walk: seq<Path>)
      requires Valid() && IsDirIn(nodes, o)
      modifies this
      ensures Valid()
      ensures ParentsFirst(walk)
      ensures forall i :: 0 <= i < |walk| ==> IsStrictPrefix(o, walk[i])
      ensures Disjoint(o, t) && res.Failed? ==> DirCopyBlame(old(nodes), o, t, res.error)
      ensures Disjoint(o, t) && CopyAllowed(old(nodes), o, t) ==> res.Done?
      ensures Disjoint(o, t) && res.Done? ==> Mirror(old(nodes), nodes, o, t)
      ensures Disjoint(o, t) && res.Done? ==> forall q :: q in walk <==> q in old(nodes) && IsStrictPrefix(o, q)
    {
      walk := [];
      ghost var m0 := nodes;
      res := CreateDir(t, DirMode);
      if res.Failed? {
        return;
      }
      ghost var m1 := nodes;
      ghost var made;
      ClearKept(m0, m1, t);
      res, made := ClearDir(t);
      if res.Failed? {
        if Disjoint(o, t) {
          BlameRefutesCopy(m0, o, t, res.error);
        }
        return;
      }
      if !IsDirIn(nodes, o) {
        return Failed(CannotOpenDir(o)), walk;
      }
      ghost var mc := nodes;
      if Disjoint(o, t) {
        OriginKept(m0, m1, mc, o, t);
      }
      if Refuses(Op.OpenDir, o) {
        assert Unopenable(m0, o, o);
        return Failed(CannotOpenDir(o)), walk;
      }
      res, walk := CopyWalk(o, t, Disjoint(o, t));
      if Disjoint(o, t) {
        if res.Failed? {
          WalkBlameKept(mc, m0, o, t, res.error);
          BlameRefutesCopy(m0, o, t, res.error);
        } else {
          CopyEnds(m0, m1, mc, nodes, o, t, walk);
        }
      }
    }

    /** The recursive directory iterator of `copy`, self first: each entry
        of the origin (as it is when the walk starts) is visited once, no
        entry after one of its descendants. */
    method CopyWalk(o: Path, t: Path, ghost start: bool) returns (res: Outcome, ghost walk: seq<Path>)
      requires Valid()
      requires start ==> WalkLoop(nodes, nodes, o, t, [])
      modifies this`nodes
      ensures Valid()
      ensures ParentsFirst(walk)
      ensures forall i :: 0 <= i < |walk| ==> IsStrictPrefix(o, walk[i])
      ensures res.Done? ==> forall q :: q in walk <==> q in old(nodes) && IsStrictPrefix(o, q)
      ensures start && res.Failed? ==> WalkBlame(old(nodes), o, t, res.error)
      ensures start && WalkAllowed(old(nodes), o, t) ==> res.Done?
      ensures start && res.Done? ==> WalkLoop(old(nodes), nodes, o, t, walk)
    {
      walk := [];
      res := Done;
      ghost var mc := nodes;
      var todo := set q | q in nodes && IsStrictPrefix(o, q);
      ghost var items := todo;
      while todo != {}
        invariant Valid() && res.Done?
        invariant todo <= items
        invariant forall q :: q in walk <==> q in items && q !in todo
        invariant forall i :: 0 <= i < |walk| ==> IsStrictPrefix(o, walk[i])
        invariant ParentsFirst(walk)
        invariant forall x, y :: x in walk && y in todo ==> |x| <= |y|
        invariant start ==> WalkLoop(mc, nodes, o, t, walk)
        decreases todo
      {
        ghost var w := ShortestExists(todo);
        var q :| q in todo && forall y :: y in todo ==> |q| <= |y|;
        ParentsFirstAppend(walk, q);
        ghost var m := nodes;
        res := CopyItem(mc, o, t, q, walk);
        if res.Failed? {
          if start {
            WalkBlameRefutes(mc, o, t, res.error);
          }
          walk := walk + [q];
          return;
        }
        walk := walk + [q];
        todo := todo - {q};
      }
    }

    /** One entry of the walk: a directory is created at its image, a missing
        entry raises, a file is copied. */
    method CopyItem(ghost mc: map<Path, Node>, o: Path, t: Path, q: Path, ghost walk: seq<Path>) returns (res: Outcome)
      requires Valid() && IsStrictPrefix(o, q)
      modifies this`nodes
      ensures Valid()
      ensures res.Failed? && q in mc && WalkLoop(mc, old(nodes), o, t, walk) ==> WalkBlame(mc, o, t, res.error)
      ensures res.Done? && q in mc && WalkLoop(mc, old(nodes), o, t, walk) ==> WalkLoop(mc, nodes, o, t, walk + [q])
    {
      var r := Rebase(q, o, t);
      ghost var m := nodes;
      ghost var ctx := q in mc && WalkLoop(mc, m, o, t, walk);
      if IsDirIn(nodes, q) {
        res := CreateDir(r, DirMode);
        if res.Done? && ctx {
          DirImageStep(mc, m, nodes, o, t, q, walk);
        } else if ctx {
          ImageMkdirBlame(mc, m, o, t, walk, q);
        }
        if res.Done? && Refuses(Op.OpenDir, q) {
          res := Failed(CannotOpenDir(q));
        }
      } else if !Exists(nodes, q) {
        res := Failed(NotFound(q));
      } else {
        res := CopyFile(q, r);
        if res.Done? && ctx {
          FileImageStep(mc, m, nodes, o, t, q, walk);
        } else if res.Failed? && res.error.MkdirFailed? && ctx {
          FileParentBlame(mc, m, o, t, walk, q);
        }
      }
      if res.Failed? && ctx {
        WalkBlameKept(m, mc, o, t, res.error);
      }
    }

    /** A path missing from the walk's tree that is a prefix of the image of
        an origin entry is the image of an ancestor of that entry (a
        directory), or of the entry itself. */
    lemma NewImageAncestor(mc: map<Path, Node>, m: map<Path, Node>, o: Path, t: Path, q: Path, x: Path)
      requires ValidTree(m) && ValidTree(mc) && t in m && Disjoint(o, t)
      requires q in mc && IsStrictPrefix(o, q) && x !in m && IsPrefix(x, Rebase(q, o, t))
      ensures IsStrictPrefix(t, x) && !IsPrefix(o, x) && o + x[|t|..] in mc
      ensures x != Rebase(q, o, t) ==> mc[o + x[|t|..]].Dir?
      ensures x == Rebase(q, o, t) ==> o + x[|t|..] == q
    {
      NewBelowTarget(m, t, Rebase(q, o, t), x);
      BelowTargetNotOrigin(o, t, x);
      ImagePrefix(q, o, t, x);
      var a := o + x[|t|..];
      if |a| < |q| {
        assert q[..|a|] == a;
        assert q[..|a|] in mc;
        assert |x| < |Rebase(q, o, t)|;
      } else {
        assert a == q;
      }
    }

    /** Visited entries stay copied when the tree only grows and keeps its
        directories. */
    lemma CopiedKept(mc: map<Path, Node>, m: map<Path, Node>, m1: map<Path, Node>, o: Path, t: Path, walk: seq<Path>)
      requires forall x :: x in m ==> x in m1 && (m[x].Dir? ==> m1[x].Dir?)
      requires forall q :: q in walk ==> q in mc && IsStrictPrefix(o, q) && Copied(mc, m, o, t, q)
      ensures forall q :: q in walk ==> q in mc && IsStrictPrefix(o, q) && Copied(mc, m1, o, t, q)
    {
      forall q | q in walk ensures q in mc && IsStrictPrefix(o, q) && Copied(mc, m1, o, t, q) {
        assert Copied(mc, m, o, t, q);
      }
    }

    /** Creating the image of a directory entry keeps the walk's invariant. */
    lemma DirImageStep(mc: map<Path, Node>, m: map<Path, Node>, m1: map<Path, Node>, o: Path, t: Path, q: Path, walk: seq<Path>)
      requires WalkLoop(mc, m, o, t, walk) && q in mc && IsStrictPrefix(o, q) && mc[q].Dir?
      requires ValidTree(m1) && Grown(m, m1, Rebase(q, o, t), DirMode) && IsDirIn(m1, Rebase(q, o, t))
      ensures WalkLoop(mc, m1, o, t, walk + [q])
    {
      var r := Rebase(q, o, t);
      assert t in m;
      forall x | x in m1 && x !in m
        ensures IsStrictPrefix(t, x) && !IsPrefix(o, x) && o + x[|t|..] in mc && KindOK(mc[o + x[|t|..]], m1[x])
      {
        NewImageAncestor(mc, m, o, t, q, x);
      }
      CopiedKept(mc, m, m1, o, t, walk);
    }

    /** Copying a file entry to its image keeps the walk's invariant. */
    lemma FileImageStep(mc: map<Path, Node>, m: map<Path, Node>, m1: map<Path, Node>, o: Path, t: Path, q: Path, walk: seq<Path>)
      requires WalkLoop(mc, m, o, t, walk) && q in mc && IsStrictPrefix(o, q) && mc[q].File?
      requires ValidTree(m1) && IsFileIn(m, q) && FileCopied(m, m1, q, Rebase(q, o, t), Done)
      ensures WalkLoop(mc, m1, o, t, walk + [q])
    {
      var r := Rebase(q, o, t);
      assert t in m;
      BelowTargetNotOrigin(o, t, r);
      assert r != [] && IsPrefix(Parent(r), r) by {
        assert r[..|Parent(r)|] == Parent(r);
      }
      assert r in m ==> m[r] == File(mc[q].size, FileMode) by {
        if r in m {
          assert o + r[|t|..] == q;
        }
      }
      assert m[q] == mc[q];
      assert r in m1 ==> m1[r] == File(mc[q].size, FileMode);
      FileImageNew(mc, m, m1, o, t, q);
      forall x | x in m1 && IsStrictPrefix(t, x) ensures o + x[|t|..] in mc && KindOK(mc[o + x[|t|..]], m1[x]) {
        if x == r {
          assert o + r[|t|..] == q;
        } else if x in m {
          assert m1[x] == m[x];
        }
      }
      assert Copied(mc, m1, o, t, q);
      CopiedKept(mc, m, m1, o, t, walk);
    }

    /** What copying a file entry adds to the tree are images of its
        ancestors and of itself. */
    lemma FileImageNew(mc: map<Path, Node>, m: map<Path, Node>, m1: map<Path, Node>, o: Path, t: Path, q: Path)
      requires ValidTree(m) && ValidTree(mc) && t in m && Disjoint(o, t)
      requires q in mc && IsStrictPrefix(o, q) && mc[q].File? && IsFileIn(m, q) && m[q] == mc[q]
      requires FileCopied(m, m1, q, Rebase(q, o, t), Done)
      requires IsPrefix(Parent(Rebase(q, o, t)), Rebase(q, o, t)) && q != Rebase(q, o, t)
      ensures forall x :: x in m1 && x !in m ==>
        IsStrictPrefix(t, x) && !IsPrefix(o, x) && o + x[|t|..] in mc && KindOK(mc[o + x[|t|..]], m1[x])
    {
      var r := Rebase(q, o, t);
      forall x | x in m1 && x !in m
        ensures IsStrictPrefix(t, x) && !IsPrefix(o, x) && o + x[|t|..] in mc && KindOK(mc[o + x[|t|..]], m1[x])
      {
        if x != r {
          PrefixTrans(x, Parent(r), r);
        }
        NewImageAncestor(mc, m, o, t, q, x);
      }
    }

    /** The walk over every entry of the origin leaves its mirror. */
    lemma CopyEnds(m0: map<Path, Node>, m1: map<Path, Node>, mc: map<Path, Node>, m: map<Path, Node>, o: Path, t: Path, walk: seq<Path>)
      requires Grown(m0, m1, t, DirMode) && IsDirIn(m1, t)
      requires Shrunk(m1, mc, t) && t in mc && mc[t] == m1[t]
      requires forall x :: IsPrefix(o, x) ==> (x in mc <==> x in m0) && (x in mc ==> mc[x] == m0[x])
      requires WalkLoop(mc, m, o, t, walk)
      requires forall q :: q in walk <==> q in mc && IsStrictPrefix(o, q)
      ensures Mirror(m0, m, o, t)
      ensures forall q :: q in walk <==> q in m0 && IsStrictPrefix(o, q)
    {
      forall q | q in m0 && IsStrictPrefix(o, q) ensures Copied(m0, m, o, t, q) {
        assert Copied(mc, m, o, t, q);
      }
      forall q | q in m && !IsPrefix(t, q) ensures q in m0 || (IsStrictPrefix(q, t) && m[q] == Dir(DirMode)) {
        assert q in mc;
      }
    }
  }
}
