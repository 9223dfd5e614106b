/** Path facts behind the directory branch of `copy`: the order in which the
    origin's entries are visited, and how the images of those entries under
    the target sit in the tree. */
module FsCopy {
  import opened FsTree
  import opened FsMove

  /** No entry is visited after one of its descendants (the order of a
      self-first recursive directory iterator). */
  predicate ParentsFirst(walk: seq<Path>)
  {
    forall i, j :: 0 <= i < j < |walk| ==> !IsStrictPrefix(walk[j], walk[i])
  }

  /** A shortest path of a non-empty set. */
  lemma ShortestExists(s: set<Path>) returns (q: Path)
    requires s != {}
    ensures q in s && forall r :: r in s ==> |q| <= |r|
  {
    var x :| x in s;
    if s == {x} {
      q := x;
    } else {
      var p := ShortestExists(s - {x});
      q := if |x| <= |p| then x else p;
    }
  }

  /** Appending a shortest remaining entry keeps the walk parents-first. */
  lemma ParentsFirstAppend(walk: seq<Path>, q: Path)
    requires ParentsFirst(walk)
    requires forall x :: x in walk ==> |x| <= |q|
    ensures ParentsFirst(walk + [q])
  {
    forall i, j | 0 <= i < j < |walk + [q]| ensures !IsStrictPrefix((walk + [q])[j], (walk + [q])[i]) {
      if j == |walk| {
        assert walk[i] in walk;
      }
    }
  }

  /** What a copied entry becomes: a directory with the default mode, or a
      file of the same size with the default mode. */
  predicate KindOK(src: Node, dst: Node)
  {
    (src.Dir? && dst == Dir(DirMode)) || (src.File? && dst == File(src.size, FileMode))
  }

  /** Two prefixes of one path are prefixes of each other. */
  lemma Comparable(a: Path, b: Path, r: Path)
    requires IsPrefix(a, r) && IsPrefix(b, r)
    ensures IsPrefix(a, b) || IsPrefix(b, a)
  {
    if |a| <= |b| {
      assert b[..|a|] == r[..|a|];
    } else {
      assert a[..|b|] == r[..|b|];
    }
  }

  /** A prefix of an image that is longer than the target is the image of an
      ancestor of the entry. */
  lemma ImagePrefix(q: Path, o: Path, t: Path, x: Path)
    requires IsPrefix(o, q) && IsPrefix(x, Rebase(q, o, t)) && IsStrictPrefix(t, x)
    ensures IsStrictPrefix(o, o + x[|t|..]) && IsPrefix(o + x[|t|..], q)
    ensures x == Rebase(o + x[|t|..], o, t)
  {
    var r := Rebase(q, o, t);
    var a := o + x[|t|..];
    assert x[|t|..] == r[|t|..|x|];
    assert q == o + r[|t|..];
    assert q[..|a|] == a;
    assert x == t + a[|o|..];
  }

  /** A path below the target that is missing from a tree containing the
      target lies strictly below it when it is a prefix of an image. */
  lemma NewBelowTarget(m: map<Path, Node>, t: Path, r: Path, x: Path)
    requires ValidTree(m) && t in m && x !in m
    requires IsPrefix(t, r) && IsPrefix(x, r)
    ensures IsStrictPrefix(t, x)
  {
    Comparable(t, x, r);
  }

  /** Under disjoint paths, nothing below the target is below the origin. */
  lemma BelowTargetNotOrigin(o: Path, t: Path, x: Path)
    requires Disjoint(o, t) && IsPrefix(t, x)
    ensures !IsPrefix(o, x)
  {
    if IsPrefix(o, x) {
      Comparable(o, t, x);
    }
  }

  /** Creating the target (and its ancestors) and then emptying it leaves the
      origin's subtree as it was when the two paths are disjoint. */
  lemma OriginKept(m0: map<Path, Node>, m1: map<Path, Node>, mc: map<Path, Node>, o: Path, t: Path)
    requires Disjoint(o, t)
    requires forall q :: q in m0 ==> q in m1 && m1[q] == m0[q]
    requires forall q :: q in m1 && q !in m0 ==> IsPrefix(q, t)
    requires forall q :: q in mc ==> q in m1 && mc[q] == m1[q]
    requires forall q :: q in m1 && !IsPrefix(t, q) ==> q in mc
    ensures forall q :: IsPrefix(o, q) ==> (q in mc <==> q in m0) && (q in mc ==> mc[q] == m0[q])
  {
    forall q | IsPrefix(o, q) ensures (q in mc <==> q in m0) && (q in mc ==> mc[q] == m0[q]) {
      if q in m1 && q !in m0 {
        Comparable(o, q, t);
        PrefixTrans(o, q, t);
      }
      if q in m1 && IsPrefix(t, q) {
        BelowTargetNotOrigin(o, t, q);
      }
    }
  }
}
