/** The host's `rename($o, $t)` on the tree: the subtree at `o` is moved,
    unchanged, to `t`. */
module FsMove {
  import opened FsTree

  /** The path that `q`, at or below `o`, takes when `o` is moved to `t`. */
  function Rebase(q: Path, o: Path, t: Path): (r: Path)
    requires IsPrefix(o, q)
    ensures IsPrefix(t, r) && |r| == |t| + |q| - |o|
    ensures o + r[|t|..] == q
  {
    assert (t + q[|o|..])[..|t|] == t;
    assert q == o + q[|o|..];
    t + q[|o|..]
  }

  /** The keys after the move: those outside the subtree at `o`, and the
      rebased ones. */
  function MovedKeys(m: map<Path, Node>, o: Path, t: Path): set<Path>
  {
    (set q | q in m && !IsPrefix(o, q)) + (set q | q in m && IsPrefix(o, q) :: Rebase(q, o, t))
  }

  /** The tree after the subtree at `o` is moved to `t`. */
  function MoveTree(m: map<Path, Node>, o: Path, t: Path): map<Path, Node>
  {
    map q | q in MovedKeys(m, o, t) ::
      if IsPrefix(t, q) && o + q[|t|..] in m then m[o + q[|t|..]]
      else if q in m then m[q]
      else Link
  }

  /** Rebasing is one-to-one. */
  lemma RebaseInjective(q1: Path, q2: Path, o: Path, t: Path)
    requires IsPrefix(o, q1) && IsPrefix(o, q2)
    ensures Rebase(q1, o, t) == Rebase(q2, o, t) ==> q1 == q2
  {
  }

  /** The move as the host performs it, into a missing `t` whose parent is a
      directory and which does not lie inside `o`: every entry below `o`
      reappears below `t` with the same node, nothing is left below `o`,
      every other entry stays, and the result is a tree. */
  lemma MoveTreeFacts(m: map<Path, Node>, o: Path, t: Path)
    requires ValidTree(m) && o in m && o != []
    requires t !in m && IsDirIn(m, Parent(t)) && !IsPrefix(o, t)
    ensures forall q :: q in m && IsPrefix(o, q) ==>
      Rebase(q, o, t) in MoveTree(m, o, t) && MoveTree(m, o, t)[Rebase(q, o, t)] == m[q]
    ensures forall q :: q in m && !IsPrefix(o, q) ==> q in MoveTree(m, o, t) && MoveTree(m, o, t)[q] == m[q]
    ensures forall q :: q in MoveTree(m, o, t) ==> !IsPrefix(o, q)
    ensures forall q :: q in MoveTree(m, o, t) ==> (q in m && !IsPrefix(o, q)) || (IsPrefix(t, q) && o + q[|t|..] in m)
    ensures ValidTree(MoveTree(m, o, t))
  {
    var r := MoveTree(m, o, t);
    NothingBelowMissing(m, t);
    forall q | q in m && IsPrefix(o, q)
      ensures Rebase(q, o, t) in r && r[Rebase(q, o, t)] == m[q]
    {
      var b := Rebase(q, o, t);
      assert b in MovedKeys(m, o, t);
    }
    forall q | q in r ensures !IsPrefix(o, q) {
      if q !in m || IsPrefix(o, q) {
        var y :| y in m && IsPrefix(o, y) && q == Rebase(y, o, t);
        assert !IsPrefix(t, o);
        RebaseOutside(o, t, y);
      }
    }
    forall q | q in r ensures (q in m && !IsPrefix(o, q)) || (IsPrefix(t, q) && o + q[|t|..] in m) {
      if !(q in m && !IsPrefix(o, q)) {
        var y :| y in m && IsPrefix(o, y) && q == Rebase(y, o, t);
      }
    }
    MoveValid(m, o, t);
  }

  /** A missing path has nothing below it in a tree. */
  lemma NothingBelowMissing(m: map<Path, Node>, t: Path)
    requires ValidTree(m) && t !in m
    ensures forall q :: q in m ==> !IsPrefix(t, q)
  {
    MissingHasNoSubtree(m, t);
  }

  /** A rebased path does not lie inside `o`, since `t` and `o` are apart. */
  lemma RebaseOutside(o: Path, t: Path, y: Path)
    requires IsPrefix(o, y) && !IsPrefix(o, t) && !IsPrefix(t, o)
    ensures !IsPrefix(o, Rebase(y, o, t))
  {
    var b := Rebase(y, o, t);
    if |o| <= |t| {
      assert b[..|o|] == t[..|o|];
    } else {
      assert o[..|t|] != t;
      assert b[..|t|] == t;
    }
  }

  /** The moved tree is a tree. */
  lemma MoveValid(m: map<Path, Node>, o: Path, t: Path)
    requires ValidTree(m) && o in m && o != []
    requires t !in m && IsDirIn(m, Parent(t)) && !IsPrefix(o, t)
    ensures ValidTree(MoveTree(m, o, t))
  {
    var r := MoveTree(m, o, t);
    NothingBelowMissing(m, t);
    assert [] in MovedKeys(m, o, t);
    forall q, k | q in r && 0 <= k < |q| ensures q[..k] in r && r[q[..k]].Dir? {
      if q in m && !IsPrefix(o, q) {
        KeptPrefix(m, o, t, q, k);
      } else {
        var y :| y in m && IsPrefix(o, y) && q == Rebase(y, o, t);
        RebasedPrefix(m, o, t, y, k);
      }
    }
  }

  /** A prefix of a kept entry is a kept directory. */
  lemma KeptPrefix(m: map<Path, Node>, o: Path, t: Path, q: Path, k: nat)
    requires ValidTree(m) && t !in m
    requires forall q :: q in m ==> !IsPrefix(t, q)
    requires q in m && !IsPrefix(o, q) && k < |q|
    ensures q[..k] in MoveTree(m, o, t) && MoveTree(m, o, t)[q[..k]].Dir?
  {
    var p := q[..k];
    assert p in m;
    assert !IsPrefix(o, p);
    assert p in MovedKeys(m, o, t);
  }

  /** A prefix of a rebased entry is a directory: a rebased one at or below
      `t`, or one above `t` that was kept. */
  lemma RebasedPrefix(m: map<Path, Node>, o: Path, t: Path, y: Path, k: nat)
    requires ValidTree(m) && o in m && o != []
    requires t !in m && IsDirIn(m, Parent(t)) && !IsPrefix(o, t)
    requires forall q :: q in m ==> !IsPrefix(t, q)
    requires y in m && IsPrefix(o, y) && k < |Rebase(y, o, t)|
    ensures Rebase(y, o, t)[..k] in MoveTree(m, o, t) && MoveTree(m, o, t)[Rebase(y, o, t)[..k]].Dir?
  {
    var q := Rebase(y, o, t);
    var p := q[..k];
    if k >= |t| {
      var z := y[..|o| + k - |t|];
      assert z in m && m[z].Dir?;
      assert IsPrefix(o, z);
      assert Rebase(z, o, t) == p;
      assert p in MovedKeys(m, o, t);
      assert o + p[|t|..] == z;
    } else {
      assert p == t[..k];
      var pt := Parent(t);
      assert t != [];
      assert p == pt[..k] || p == pt;
      assert p in m && m[p].Dir?;
      assert !IsPrefix(o, p);
      assert !IsPrefix(t, p);
      assert p in MovedKeys(m, o, t);
    }
  }
}
