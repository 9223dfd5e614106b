/** What `FileSystem::size` and `FileSystem::ls` see of a directory: a
    recursive directory iterator in its default leaves-only mode yields every
    non-directory entry below the directory, at any depth; empty directories
    contribute nothing. */
module FsListing {
  import opened FsTree

  /** The regular files below `dir`, whose sizes `size` adds up. */
  function FilesBelow(m: map<Path, Node>, dir: Path): (r: set<Path>)
    ensures forall q :: q in r <==> q in m && IsStrictPrefix(dir, q) && m[q].File?
  {
    set q | q in m && IsStrictPrefix(dir, q) && m[q].File?
  }

  /** The entries below `dir` that are not directories (files and links): what `ls` lists. */
  function LeavesBelow(m: map<Path, Node>, dir: Path): (r: set<Path>)
    ensures forall q :: q in r <==> q in m && IsStrictPrefix(dir, q) && !m[q].Dir?
  {
    set q | q in m && IsStrictPrefix(dir, q) && !m[q].Dir?
  }

  /** The size `getSize` reports for `q`, and 0 for anything but a file. */
  function SizeOf(m: map<Path, Node>, q: Path): nat
  {
    if q in m && m[q].File? then m[q].size else 0
  }

  /** The sum of the sizes of the entries in `s`. */
  ghost function TotalSize(m: map<Path, Node>, s: set<Path>): nat
    decreases s
  {
    if s == {} then 0 else var q :| q in s; SizeOf(m, q) + TotalSize(m, s - {q})
  }

  /** Any member can be taken out of the sum first. */
  lemma {:induction false} TotalSizeRemove(m: map<Path, Node>, s: set<Path>, q: Path)
    requires q in s
    ensures TotalSize(m, s) == SizeOf(m, q) + TotalSize(m, s - {q})
    decreases s
  {
    var y :| y in s && TotalSize(m, s) == SizeOf(m, y) + TotalSize(m, s - {y});
    if y != q {
      TotalSizeRemove(m, s - {y}, q);
      TotalSizeRemove(m, s - {q}, y);
      assert s - {y} - {q} == s - {q} - {y};
    }
  }

  /** The sum over two disjoint sets is the sum of their sums. */
  lemma {:induction false} TotalSizeUnion(m: map<Path, Node>, a: set<Path>, b: set<Path>)
    requires a !! b
    ensures TotalSize(m, a + b) == TotalSize(m, a) + TotalSize(m, b)
    decreases a
  {
    if a != {} {
      var q :| q in a;
      TotalSizeRemove(m, a + b, q);
      TotalSizeRemove(m, a, q);
      assert (a + b) - {q} == (a - {q}) + b;
      TotalSizeUnion(m, a - {q}, b);
    } else {
      assert a + b == b;
    }
  }

  /** Every file below `dir` counts in full towards the total. */
  lemma TotalSizeBound(m: map<Path, Node>, s: set<Path>, q: Path)
    requires q in s
    ensures TotalSize(m, s) >= SizeOf(m, q)
  {
    TotalSizeRemove(m, s, q);
  }

  /** `le` is a total preorder, as the comparison `natsort` uses is taken to be. */
  ghost predicate TotalPreorder(le: (Path, Path) -> bool)
  {
    && (forall a, b :: le(a, b) || le(b, a))
    && (forall a, b, c :: le(a, b) && le(b, c) ==> le(a, c))
  }

  ghost predicate Sorted(s: seq<Path>, le: (Path, Path) -> bool)
  {
    forall i, j :: 0 <= i < j < |s| ==> le(s[i], s[j])
  }

  /** `x` inserted before the first element it does not come after. */
  function Insert(s: seq<Path>, x: Path, le: (Path, Path) -> bool): (r: seq<Path>)
    ensures multiset(r) == multiset(s) + multiset{x}
  {
    if s == [] then [x]
    else if le(x, s[0]) then [x] + s
    else
      assert s == [s[0]] + s[1..];
      [s[0]] + Insert(s[1..], x, le)
  }

  /** Insertion keeps a sequence sorted. */
  lemma {:induction false} InsertSorted(s: seq<Path>, x: Path, le: (Path, Path) -> bool)
    requires TotalPreorder(le) && Sorted(s, le)
    ensures Sorted(Insert(s, x, le), le)
  {
    if s != [] && !le(x, s[0]) {
      var t := Insert(s[1..], x, le);
      InsertSorted(s[1..], x, le);
      assert le(s[0], x);
      forall k | 0 <= k < |t| ensures le(s[0], t[k]) {
        assert t[k] in multiset(t);
        assert t[k] == x || t[k] in multiset(s[1..]);
        if t[k] != x {
          var j :| 0 <= j < |s[1..]| && s[1..][j] == t[k];
          assert s[1..][j] == s[j + 1];
        }
      }
    }
  }

  /** One more element of a set moved into a sequence holding the others once each. */
  lemma MoveOne(all: set<Path>, todo: set<Path>, out: seq<Path>, q: Path, le: (Path, Path) -> bool)
    requires todo <= all && q in todo
    requires multiset(out) == multiset(all - todo)
    ensures multiset(Insert(out, q, le)) == multiset(all - (todo - {q}))
  {
    assert all - (todo - {q}) == (all - todo) + {q};
    assert q !in all - todo;
  }
}
