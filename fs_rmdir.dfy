/** Which entries survive `FileSystem::rmdir($d, $unlink)`. The walk removes
    files (when the flag allows it) and then each emptied directory; links are
    never removed, and a refused call leaves its entry, and so every directory
    above it, in place. */
module FsRmdir {
  import opened FsTree

  /** The flag the recursion into a subdirectory receives: the source passes
      none, so the default `true` applies; `pass` models a recursion that
      passes the flag on. */
  function Nested(unlink: bool, pass: bool): bool
  {
    if pass then unlink else true
  }

  /** The entry `s` below `d` is never removed by the walk: a link, a file
      whose `unlink` is refused or that the flag keeps, or a directory whose
      `rmdir` is refused. */
  ghost predicate Blocks(m: map<Path, Node>, faults: set<Call>, d: Path, unlink: bool, pass: bool, s: Path)
    requires s in m
  {
    match m[s]
    case Link => true
    case File(_, _) => Refused(faults, Unlink, s) || (!unlink && (pass || |s| == |d| + 1))
    case Dir(_) => Refused(faults, Rmdir, s)
  }

  /** `q` survives the walk: something in its subtree blocks it. */
  ghost predicate Stuck(m: map<Path, Node>, faults: set<Call>, d: Path, unlink: bool, pass: bool, q: Path)
  {
    exists s {:trigger Blocks(m, faults, d, unlink, pass, s)} ::
      s in m && IsPrefix(q, s) && Blocks(m, faults, d, unlink, pass, s)
  }

  /** Below a child directory `c` of `d`, the recursion's view of what blocks
      agrees with the caller's. */
  lemma StuckAgree(m: map<Path, Node>, faults: set<Call>, d: Path, unlink: bool, pass: bool, c: Path, q: Path)
    requires IsStrictPrefix(d, c) && |c| == |d| + 1 && c in m && m[c].Dir?
    requires IsPrefix(c, q)
    ensures Stuck(m, faults, c, Nested(unlink, pass), pass, q) <==> Stuck(m, faults, d, unlink, pass, q)
  {
    forall s | s in m && IsPrefix(q, s)
      ensures Blocks(m, faults, c, Nested(unlink, pass), pass, s) <==> Blocks(m, faults, d, unlink, pass, s)
    {
      PrefixTrans(c, q, s);
      if s == c {
      } else if m[s].File? {
        assert |s| > |c|;
      }
    }
  }

  /** Whether `q` below `c` is stuck depends only on the subtree of `c`. */
  lemma StuckLocal(m0: map<Path, Node>, m: map<Path, Node>, faults: set<Call>, d: Path, unlink: bool, pass: bool,
                   c: Path, q: Path)
    requires forall s :: IsPrefix(c, s) ==> (s in m <==> s in m0)
    requires forall s :: s in m && IsPrefix(c, s) ==> m[s] == m0[s]
    requires IsPrefix(c, q)
    ensures Stuck(m, faults, d, unlink, pass, q) <==> Stuck(m0, faults, d, unlink, pass, q)
  {
    if Stuck(m, faults, d, unlink, pass, q) {
      var s :| s in m && IsPrefix(q, s) && Blocks(m, faults, d, unlink, pass, s);
      PrefixTrans(c, q, s);
      assert Blocks(m0, faults, d, unlink, pass, s);
    }
    if Stuck(m0, faults, d, unlink, pass, q) {
      var s :| s in m0 && IsPrefix(q, s) && Blocks(m0, faults, d, unlink, pass, s);
      PrefixTrans(c, q, s);
      assert Blocks(m, faults, d, unlink, pass, s);
    }
  }

  /** A directory `d` is stuck exactly when its own `rmdir` is refused or a
      child of it is stuck. */
  lemma StuckDir(m: map<Path, Node>, faults: set<Call>, d: Path, unlink: bool, pass: bool)
    requires ValidTree(m) && d in m && m[d].Dir?
    ensures Stuck(m, faults, d, unlink, pass, d) <==>
      Refused(faults, Rmdir, d) || exists c :: c in Children(m, d) && Stuck(m, faults, d, unlink, pass, c)
  {
    if Stuck(m, faults, d, unlink, pass, d) && !Refused(faults, Rmdir, d) {
      var s :| s in m && IsPrefix(d, s) && Blocks(m, faults, d, unlink, pass, s);
      assert s != d;
      assert IsStrictPrefix(d, s);
      ChildOnTheWay(m, d, s);
      var c := s[..|d| + 1];
      assert c in Children(m, d) && Stuck(m, faults, d, unlink, pass, c);
    }
    if exists c :: c in Children(m, d) && Stuck(m, faults, d, unlink, pass, c) {
      var c :| c in Children(m, d) && Stuck(m, faults, d, unlink, pass, c);
      var s :| s in m && IsPrefix(c, s) && Blocks(m, faults, d, unlink, pass, s);
      PrefixTrans(d, c, s);
    }
    if Refused(faults, Rmdir, d) {
      assert IsPrefix(d, d) && Blocks(m, faults, d, unlink, pass, d);
    }
  }

  /** A file or link below `d` is stuck exactly when it blocks. */
  lemma StuckLeaf(m: map<Path, Node>, faults: set<Call>, d: Path, unlink: bool, pass: bool, q: Path)
    requires ValidTree(m) && q in m && !m[q].Dir?
    ensures Stuck(m, faults, d, unlink, pass, q) <==> Blocks(m, faults, d, unlink, pass, q)
  {
    NothingBelowLeaf(m, q);
    if Stuck(m, faults, d, unlink, pass, q) {
      var s :| s in m && IsPrefix(q, s) && Blocks(m, faults, d, unlink, pass, s);
      assert s == s[..|q|];
    }
    assert IsPrefix(q, q);
  }

  /** The tree `/a/s/f` with a regular file `f` inside a subdirectory. */
  function NestedFileTree(): map<Path, Node>
  {
    map[[] := Dir(493), ["a"] := Dir(493), ["a", "s"] := Dir(493), ["a", "s", "f"] := File(1, 420)]
  }

  /** As written, `rmdir('/a', false)` on a host that refuses nothing still
      removes the file `/a/s/f`: the flag does not reach the nested walk. */
  lemma RmdirFlagLost()
    ensures ValidTree(NestedFileTree())
    ensures IsFileIn(NestedFileTree(), ["a", "s", "f"])
    ensures !Stuck(NestedFileTree(), {}, ["a"], false, false, ["a", "s", "f"])
  {
    var m := NestedFileTree();
    var f: Path := ["a", "s", "f"];
    forall q, k | q in m && 0 <= k < |q| ensures q[..k] in m && m[q[..k]].Dir? {
      if q == f {
        if k == 2 { assert q[..k] == ["a", "s"]; }
        else if k == 1 { assert q[..k] == ["a"]; }
        else { assert q[..k] == []; }
      } else if q == ["a", "s"] {
        if k == 1 { assert q[..k] == ["a"]; }
        else { assert q[..k] == []; }
      } else {
        assert q == ["a"];
        assert q[..k] == [];
      }
    }
    forall s | s in m && IsPrefix(f, s) ensures !Blocks(m, {}, ["a"], false, false, s) {
      assert s == f;
    }
  }

  /** When the flag is passed on, `rmdir($d, false)` keeps every file below `d`. */
  lemma FlagKeepsFiles(m: map<Path, Node>, faults: set<Call>, d: Path, q: Path)
    requires IsFileIn(m, q) && IsStrictPrefix(d, q)
    ensures Stuck(m, faults, d, false, true, q)
  {
    assert IsPrefix(q, q) && Blocks(m, faults, d, false, true, q);
  }
}
