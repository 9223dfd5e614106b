/** The pure string functions of `FileSystem`: path normalisation and joining,
    the absolute-path test, the byte-size unit choice of `format`, and `ext`. */
module FsPaths {
  import opened PhpLib

  // ---------------------------------------------------------------------------
  // Splitting on separators
  // ---------------------------------------------------------------------------

  /** The two separators `normalizePath` accepts on input. */
  predicate IsSep(c: char)
  {
    c == '/' || c == '\\'
  }

  predicate SepFree(s: string)
  {
    forall i :: 0 <= i < |s| ==> !IsSep(s[i])
  }

  function SkipSeps(s: string): (r: string)
    ensures |r| <= |s| && r == s[|s| - |r|..]
    ensures |r| == 0 || !IsSep(r[0])
  {
    if |s| > 0 && IsSep(s[0]) then SkipSeps(s[1..]) else s
  }

  /** `preg_split('~[/\\\\]+~', $s)`: the pieces between maximal runs of
      separators; a leading or trailing run yields an empty first or last piece. */
  function Split(s: string): (r: seq<string>)
    ensures |r| >= 1
    ensures forall i :: 0 <= i < |r| ==> SepFree(r[i])
    ensures forall i :: 0 < i < |r| - 1 ==> r[i] != ""
    ensures |s| > 0 && !IsSep(s[0]) ==> |r[0]| > 0 && r[0][0] == s[0]
    decreases |s|
  {
    if s == [] then [[]]
    else if IsSep(s[0]) then [[]] + Split(SkipSeps(s[1..]))
    else
      var t := Split(s[1..]);
      [[s[0]] + t[0]] + t[1..]
  }

  /** The pieces `normalizePath` iterates over: none for the empty path. */
  function Parts(path: string): seq<string>
  {
    if path == "" then [] else Split(path)
  }

  // ---------------------------------------------------------------------------
  // The segment stack of normalizePath
  // ---------------------------------------------------------------------------

  /** One iteration of the `foreach`: a `..` pops the previous kept segment
      unless there is none or it is `..` or the root `''`; a `.` is dropped;
      anything else is pushed. */
  function Step(stack: seq<string>, part: string): seq<string>
  {
    if part == ".." && |stack| > 0 && stack[|stack| - 1] != ".." && stack[|stack| - 1] != "" then
      stack[..|stack| - 1]
    else if part != "." then
      stack + [part]
    else
      stack
  }

  /** The stack after processing all of `parts` from left to right. */
  function Resolve(parts: seq<string>): seq<string>
  {
    if parts == [] then [] else Step(Resolve(parts[..|parts| - 1]), parts[|parts| - 1])
  }

  /** Joining the kept segments; a lone root segment becomes the separator alone. */
  function Render(res: seq<string>, sep: char): string
  {
    if res == [""] then [sep] else Implode([sep], res)
  }

  /** `normalizePath($path)` with `DIRECTORY_SEPARATOR` given as `sep`. */
  function Normalize(path: string, sep: char): string
  {
    Render(Resolve(Parts(path)), sep)
  }

  /** A segment list no further `.`/`..` rewriting can change: no `.` at all,
      and every `..` is the first segment or follows a `..` or the root. */
  predicate Resolved(s: seq<string>)
  {
    (forall i :: 0 <= i < |s| ==> s[i] != ".") &&
    (forall i :: 0 < i < |s| && s[i] == ".." ==> s[i - 1] == ".." || s[i - 1] == "")
  }

  /** The imperative loop of `normalizePath`, proved to compute `Normalize`. */
  method NormalizePath(path: string, sep: char) returns (r: string)
    ensures r == Normalize(path, sep)
  {
    var parts := if path == "" then [] else Split(path);
    var res: seq<string> := [];
    for i := 0 to |parts|
      invariant res == Resolve(parts[..i])
    {
      var part := parts[i];
      if part == ".." && |res| > 0 && res[|res| - 1] != ".." && res[|res| - 1] != "" {
        res := res[..|res| - 1];
      } else if part != "." {
        res := res + [part];
      }
      assert parts[..i + 1][..i] == parts[..i];
    }
    assert parts[..|parts|] == parts;
    r := if res == [""] then [sep] else Implode([sep], res);
  }

  /** Every segment `normalizePath` keeps is fully resolved. */
  lemma {:induction false} ResolveIsResolved(parts: seq<string>)
    ensures Resolved(Resolve(parts))
  {
    if parts != [] {
      var init := Resolve(parts[..|parts| - 1]);
      ResolveIsResolved(parts[..|parts| - 1]);
      var part := parts[|parts| - 1];
      if part == ".." && |init| > 0 && init[|init| - 1] != ".." && init[|init| - 1] != "" {
        assert Resolve(parts) == init[..|init| - 1];
      }
    }
  }

  /** Resolving an already resolved list changes nothing. */
  lemma {:induction false} ResolveFixed(s: seq<string>)
    requires Resolved(s)
    ensures Resolve(s) == s
  {
    if s != [] {
      var init := s[..|s| - 1];
      assert Resolved(init);
      ResolveFixed(init);
      assert s == init + [s[|s| - 1]];
    }
  }

  /** Kept segments are input segments. */
  lemma {:induction false} ResolveKeepsParts(parts: seq<string>)
    ensures forall i :: 0 <= i < |Resolve(parts)| ==> Resolve(parts)[i] in parts
  {
    if parts != [] {
      var init := parts[..|parts| - 1];
      ResolveKeepsParts(init);
      forall x | x in init ensures x in parts {
        var k :| 0 <= k < |init| && init[k] == x;
        assert parts[k] == x;
      }
    }
  }

  /** An empty segment after the first input one is never followed by another. */
  lemma {:induction false} ResolveEmptyOnlyFirst(parts: seq<string>)
    requires forall i :: 0 < i < |parts| ==> parts[i] != ""
    ensures forall i :: 0 < i < |Resolve(parts)| ==> Resolve(parts)[i] != ""
  {
    if parts != [] {
      ResolveEmptyOnlyFirst(parts[..|parts| - 1]);
      var init := Resolve(parts[..|parts| - 1]);
      if |parts| == 1 {
        assert init == [];
      }
    }
  }

  /** For a split path, empty segments survive only at the two ends. */
  lemma ResolveEmptyOnlyAtEnds(parts: seq<string>)
    requires forall i :: 0 < i < |parts| - 1 ==> parts[i] != ""
    ensures forall i :: 0 < i < |Resolve(parts)| - 1 ==> Resolve(parts)[i] != ""
  {
    if parts != [] {
      ResolveEmptyOnlyFirst(parts[..|parts| - 1]);
    }
  }

  // ---------------------------------------------------------------------------
  // Splitting a joined list gives the list back
  // ---------------------------------------------------------------------------

  lemma {:induction false} SplitSepFree(x: string)
    requires SepFree(x)
    ensures Split(x) == [x]
  {
    if x != [] {
      SplitSepFree(x[1..]);
      assert [x[0]] + x[1..] == x;
    }
  }

  /** Splitting a string that starts with a non-separator adds that
      character to the first piece. */
  lemma SplitCons(u: string)
    requires |u| > 0 && !IsSep(u[0])
    ensures Split(u) == [[u[0]] + Split(u[1..])[0]] + Split(u[1..])[1..]
  {
  }

  /** Prepending a character to the first piece of `[a + t[0]] + t[1..]`. */
  lemma ConsFirst(c: char, a: string, w: seq<string>, t: seq<string>)
    requires |t| >= 1 && w == [a + t[0]] + t[1..]
    ensures [[c] + w[0]] + w[1..] == [([c] + a) + t[0]] + t[1..]
  {
    assert w[0] == a + t[0] && w[1..] == t[1..];
    assert [c] + (a + t[0]) == ([c] + a) + t[0];
  }

  lemma {:induction false} SplitPrefix(x: string, rest: string)
    requires SepFree(x)
    ensures Split(x + rest) == [x + Split(rest)[0]] + Split(rest)[1..]
  {
    if x != [] {
      SplitPrefix(x[1..], rest);
      SplitPrefixStep(x, rest);
    } else {
      var t := Split(rest);
      assert x + rest == rest;
      assert x + t[0] == t[0];
      assert [t[0]] + t[1..] == t;
    }
  }

  /** The inductive step of `SplitPrefix`: one more leading character. */
  lemma {:induction false} SplitPrefixStep(x: string, rest: string)
    requires x != [] && !IsSep(x[0])
    requires Split(x[1..] + rest) == [x[1..] + Split(rest)[0]] + Split(rest)[1..]
    ensures Split(x + rest) == [x + Split(rest)[0]] + Split(rest)[1..]
  {
    var u := x + rest;
    assert u[0] == x[0] && u[1..] == x[1..] + rest;
    SplitCons(u);
    ConsFirst(x[0], x[1..], Split(u[1..]), Split(rest));
    assert [x[0]] + x[1..] == x;
  }

  lemma SplitAfterSep(sep: char, y: string)
    requires IsSep(sep)
    requires y == [] || !IsSep(y[0])
    ensures Split([sep] + y) == [[]] + Split(y)
  {
    assert ([sep] + y)[1..] == y;
  }

  lemma {:induction false} SplitJoin(segs: seq<string>, sep: char)
    requires IsSep(sep) && |segs| >= 1
    requires forall i :: 0 <= i < |segs| ==> SepFree(segs[i])
    requires forall i :: 0 < i < |segs| - 1 ==> segs[i] != ""
    ensures Split(Implode([sep], segs)) == segs
  {
    if |segs| == 1 {
      SplitSepFree(segs[0]);
    } else {
      SplitJoin(segs[1..], sep);
      SplitJoinStep(segs, sep);
    }
  }

  /** The inductive step of `SplitJoin`: one more segment in front. */
  lemma {:induction false} SplitJoinStep(segs: seq<string>, sep: char)
    requires IsSep(sep) && |segs| >= 2
    requires SepFree(segs[0])
    requires forall i :: 0 < i < |segs| - 1 ==> segs[i] != ""
    requires Split(Implode([sep], segs[1..])) == segs[1..]
    ensures Split(Implode([sep], segs)) == segs
  {
    var tail := segs[1..];
    var y := Implode([sep], tail);
    JoinedStart(tail, sep);
    SplitAfterSep(sep, y);
    SplitPrefix(segs[0], [sep] + y);
    ImplodeCons(segs, sep);
    EmptyFirst(segs, Split([sep] + y));
  }

  /** A join of two or more segments is the first, a separator, and the
      join of the rest. */
  lemma ImplodeCons(segs: seq<string>, sep: char)
    requires |segs| >= 2
    ensures Implode([sep], segs) == segs[0] + ([sep] + Implode([sep], segs[1..]))
  {
  }

  /** Gluing the first segment onto an empty first piece. */
  lemma EmptyFirst(segs: seq<string>, s: seq<string>)
    requires |segs| >= 1 && s == [[]] + segs[1..]
    ensures [segs[0] + s[0]] + s[1..] == segs
  {
    assert s[0] == [] && s[1..] == segs[1..];
    assert segs[0] + [] == segs[0];
  }

  /** A join of segments whose inner ones are non-empty starts with a
      non-separator, or is empty, when the segments are separator-free. */
  lemma JoinedStart(tail: seq<string>, sep: char)
    requires |tail| >= 1 && IsSep(sep)
    requires Split(Implode([sep], tail)) == tail
    requires |tail| > 1 ==> tail[0] != ""
    ensures var y := Implode([sep], tail); y == [] || !IsSep(y[0])
  {
    var y := Implode([sep], tail);
    if |tail| == 1 {
      assert y == tail[0];
      assert Split(y)[0] == tail[0];
    } else {
      assert y == tail[0] + [sep] + Implode([sep], tail[1..]);
      assert SepFree(tail[0]);
      assert y[0] == tail[0][0];
    }
  }

  /** `normalizePath` is idempotent. */
  lemma NormalizeIdempotent(path: string, sep: char)
    requires IsSep(sep)
    ensures Normalize(Normalize(path, sep), sep) == Normalize(path, sep)
  {
    var parts := Parts(path);
    var res := Resolve(parts);
    ResolveIsResolved(parts);
    if res == [""] {
      assert Split([sep]) == [[]] + Split([]);
      assert Resolve([[], []]) == [[], []];
    } else if res != [] {
      ResolveKeepsParts(parts);
      ResolveEmptyOnlyAtEnds(parts);
      var out := Implode([sep], res);
      assert out != "" by {
        if |res| == 1 { assert out == res[0]; } else { assert out[|res[0]|] == sep; }
      }
      SplitJoin(res, sep);
      ResolveFixed(res);
    }
  }

  /** `joinPaths(...$paths)`: the paths imploded with `/`, then normalised. */
  function JoinPaths(paths: seq<string>, sep: char): string
  {
    Normalize(Implode("/", paths), sep)
  }

  /** A joined path is already normal: normalising it again changes nothing. */
  lemma JoinPathsIsNormal(paths: seq<string>, sep: char)
    requires IsSep(sep)
    ensures Normalize(JoinPaths(paths, sep), sep) == JoinPaths(paths, sep)
    ensures |paths| == 1 ==> JoinPaths(paths, sep) == Normalize(paths[0], sep)
  {
    NormalizeIdempotent(Implode("/", paths), sep);
  }

  // ---------------------------------------------------------------------------
  // isAbsolute
  // ---------------------------------------------------------------------------

  /** `[a-z]` under the `i` flag. */
  predicate IsLetter(c: char)
  {
    'a' <= c <= 'z' || 'A' <= c <= 'Z'
  }

  /** `[a-z0-9+.-]` under the `i` flag. */
  predicate IsSchemeChar(c: char)
  {
    IsLetter(c) || '0' <= c <= '9' || c == '+' || c == '.' || c == '-'
  }

  /** `[a-z0-9+.-]*://` matches at position `i` of `p`. */
  predicate SchemeTail(p: string, i: nat)
    decreases |p| - i
  {
    i <= |p| &&
    ((i + 3 <= |p| && p[i..i + 3] == "://") ||
     (i < |p| && IsSchemeChar(p[i]) && SchemeTail(p, i + 1)))
  }

  /** `isAbsolute($path)`: the anchored, case-insensitive pattern
      `([a-z]:)?[/\\]|[a-z][a-z0-9+.-]*://` matches at the start of `path`. */
  predicate IsAbsolute(path: string)
  {
    (|path| >= 1 && IsSep(path[0])) ||
    (|path| >= 3 && IsLetter(path[0]) && path[1] == ':' && IsSep(path[2])) ||
    (|path| >= 1 && IsLetter(path[0]) && SchemeTail(path, 1))
  }

  /** Positions `i` to `k - 1` hold scheme characters and `://` starts at `k`. */
  ghost predicate SchemeEndsAt(p: string, i: nat, k: nat)
  {
    i <= k && k + 3 <= |p| &&
    (forall j :: i <= j < k ==> IsSchemeChar(p[j])) &&
    p[k..k + 3] == "://"
  }

  /** A scheme prefix: a letter, scheme characters up to position `k`, then `://`. */
  ghost predicate SchemeAt(p: string, k: nat)
  {
    |p| >= 1 && IsLetter(p[0]) && SchemeEndsAt(p, 1, k)
  }

  lemma {:induction false} SchemeTailIff(p: string, i: nat)
    requires i <= |p|
    ensures SchemeTail(p, i) <==> exists k :: SchemeEndsAt(p, i, k)
    decreases |p| - i
  {
    if SchemeTail(p, i) {
      if i + 3 <= |p| && p[i..i + 3] == "://" {
        assert SchemeEndsAt(p, i, i);
      } else {
        SchemeTailIff(p, i + 1);
        var k :| SchemeEndsAt(p, i + 1, k);
        assert SchemeEndsAt(p, i, k);
      }
    } else {
      forall k | SchemeEndsAt(p, i, k)
        ensures false
      {
        if k != i {
          assert IsSchemeChar(p[i]) && SchemeEndsAt(p, i + 1, k);
          SchemeTailIff(p, i + 1);
        }
      }
    }
  }

  /** The absolute-path test, stated as "one of the three prefixes is present".
      The first two disjuncts repeat the separator and drive-letter tests of
      `IsAbsolute` itself; only the scheme clause, an existential over where
      `://` ends, is an independent reading of the scanning loop. */
  lemma IsAbsoluteIff(path: string)
    ensures IsAbsolute(path) <==>
      (|path| >= 1 && IsSep(path[0])) ||
      (|path| >= 3 && IsLetter(path[0]) && path[1] == ':' && IsSep(path[2])) ||
      (exists k :: SchemeAt(path, k))
  {
    if |path| >= 1 {
      SchemeTailIff(path, 1);
      if IsLetter(path[0]) && SchemeTail(path, 1) {
        var k :| SchemeEndsAt(path, 1, k);
        assert SchemeAt(path, k);
      }
    }
  }

  // ---------------------------------------------------------------------------
  // format: the exponent and unit choice
  // ---------------------------------------------------------------------------

  /** The unit table of `format`. */
  const Symbols: seq<string> := ["B", "KB", "MB", "GB", "TB", "PB", "EB", "ZB", "YB"]

  /** PHP's largest integer, 2^63 - 1. */
  const PhpIntMax: int := 0x7FFF_FFFF_FFFF_FFFF

  function Pow1024(e: nat): (r: nat)
    ensures r >= 1
  {
    if e == 0 then 1 else 1024 * Pow1024(e - 1)
  }

  /** `floor(log($bytes) / log(1024))` computed exactly on integers; PHP's
      double computation can be off by one next to a power of 1024. */
  function Exponent(bytes: int): (e: nat)
    requires bytes >= 1
    ensures Pow1024(e) <= bytes < Pow1024(e + 1)
  {
    if bytes < 1024 then 0 else 1 + Exponent(bytes / 1024)
  }

  /** What `format` renders: the exponent, the exact quotient `bytes / 1024^exp`
      (its rounding by `number_format` is not modelled), the number of decimals,
      and the unit (`''` when the exponent runs past the table). */
  datatype Formatted = Formatted(exponent: nat, value: real, decimals: int, unit: string)

  function Format(bytes: int, decimals: int): (r: Formatted)
    ensures bytes <= 0 ==> r == Formatted(0, 0.0, 0, "B")
    ensures bytes > 0 ==> Pow1024(r.exponent) <= bytes < Pow1024(r.exponent + 1)
    ensures bytes > 0 ==> 1.0 <= r.value < 1024.0
    ensures r.exponent < |Symbols| ==> r.unit == Symbols[r.exponent]
    ensures r.exponent >= |Symbols| ==> r.unit == ""
    ensures r.decimals == (if r.exponent == 0 then 0 else decimals)
  {
    var exp := if bytes > 0 then Exponent(bytes) else 0;
    var value := if bytes > 0 then QuotientBounds(bytes, Pow1024(exp)); bytes as real / Pow1024(exp) as real else 0.0;
    var unit := if exp < |Symbols| then Symbols[exp] else "";
    Formatted(exp, value, if exp < |Symbols| && Symbols[exp] == "B" then 0 else decimals, unit)
  }

  lemma QuotientBounds(b: int, q: int)
    requires 1 <= q <= b < 1024 * q
    ensures 1.0 <= b as real / q as real < 1024.0
  {
    var x := b as real / q as real;
    assert x * q as real == b as real;
    assert b as real < 1024.0 * q as real;
    if x < 1.0 {
      MulStrictMono(x, 1.0, q as real);
      assert false;
    }
    if x >= 1024.0 {
      MulStrictMono(1024.0, x, q as real);
      assert false;
    }
  }

  lemma MulStrictMono(x: real, y: real, q: real)
    requires q > 0.0 && x <= y
    ensures x * q <= y * q
    ensures x < y ==> x * q < y * q
  {
  }

  lemma {:induction false} Pow1024Monotone(a: nat, b: nat)
    requires a <= b
    ensures Pow1024(a) <= Pow1024(b)
    decreases b
  {
    if a < b {
      Pow1024Monotone(a, b - 1);
    }
  }

  /** Any byte count a PHP integer can hold gets a unit from the table (at most EB). */
  lemma FormatIntInTable(bytes: int, decimals: int)
    requires bytes <= PhpIntMax
    ensures Format(bytes, decimals).exponent <= 6
    ensures Format(bytes, decimals).unit in Symbols
  {
    if bytes > 0 {
      var e := Format(bytes, decimals).exponent;
      if e >= 7 {
        Pow1024Monotone(7, e);
      }
    }
  }

  // ---------------------------------------------------------------------------
  // ext
  // ---------------------------------------------------------------------------

  /** The index of the first newline in `s` at or after `i`, or `|s|`. */
  function LineEnd(s: string, i: nat): (k: nat)
    requires i <= |s|
    ensures i <= k <= |s| && (k == |s| || s[k] == '\n')
    decreases |s| - i
  {
    if i < |s| && s[i] != '\n' then LineEnd(s, i + 1) else i
  }

  /** Drops the characters up to (not including) the next newline. */
  function SkipLine(s: string): (r: string)
    ensures |r| <= |s| && r == s[|s| - |r|..]
    ensures r == [] || r[0] == '\n'
  {
    s[LineEnd(s, 0)..]
  }

  /** `preg_replace('#\?(.*)#', '', $s)`: every `?` is removed together with the
      rest of its line (`.` does not match a newline). */
  function CutQuery(s: string): (r: string)
    ensures '?' !in r
    decreases |s|
  {
    if s == [] then []
    else if s[0] == '?' then CutQuery(SkipLine(s[1..]))
    else [s[0]] + CutQuery(s[1..])
  }

  /** `pathinfo($p, PATHINFO_EXTENSION)`: what follows the last dot of the base name. */
  function PathInfoExtension(p: string): (r: string)
    ensures '.' !in r && '/' !in r
  {
    var b := Basename(p);
    if '.' in b then AfterLast(b, '.') else ""
  }

  /** `ext($path)`: `''` for a falsy path, otherwise the lower-cased extension of
      the path with its query part cut off. */
  function Ext(path: string): (r: string)
    ensures '.' !in r && '/' !in r
    ensures forall i :: 0 <= i < |r| ==> !('A' <= r[i] <= 'Z')
  {
    if path == "" || path == "0" then ""
    else
      var p := if '?' in path then CutQuery(path) else path;
      Lower(PathInfoExtension(p))
  }

  lemma {:induction false} CutQueryPlain(s: string)
    requires '?' !in s
    ensures CutQuery(s) == s
  {
    if s != [] {
      CutQueryPlain(s[1..]);
      assert [s[0]] + s[1..] == s;
    }
  }

  lemma {:induction false} CutQueryDropsLine(p: string, q: string)
    requires '?' !in p && '\n' !in q
    ensures CutQuery(p + ['?'] + q) == p
  {
    if p == [] {
      assert SkipLine(q) == [];
      assert (p + ['?'] + q)[1..] == q;
    } else {
      CutQueryDropsLine(p[1..], q);
      assert (p + ['?'] + q)[1..] == p[1..] + ['?'] + q;
      assert [p[0]] + p[1..] == p;
    }
  }

  /** Without a `?` the path goes to `pathinfo` unchanged. */
  lemma ExtQueryFree(p: string)
    requires '?' !in p
    ensures Ext(p) == Lower(PathInfoExtension(p))
  {
    if p == "" || p == "0" {
      assert |p| <= 1 && forall i :: 0 <= i < |p| ==> p[i] != '.';
      NoDotNoExt(p);
    }
  }

  /** A path without a dot has no extension. */
  lemma NoDotNoExt(p: string)
    requires forall i :: 0 <= i < |p| ==> p[i] != '.'
    ensures PathInfoExtension(p) == ""
  {
    var d := DropTrailing(p, '/');
    var b := AfterLast(d, '/');
    forall i | 0 <= i < |b| ensures b[i] != '.' {
      assert b[i] == d[|d| - |b| + i] == p[|d| - |b| + i];
    }
  }

  lemma ExtCutsQuery(p: string, q: string)
    requires '?' !in p && '\n' !in q
    ensures Ext(p + ['?'] + q) == Lower(PathInfoExtension(p))
  {
    var u := p + ['?'] + q;
    assert u[|p|] == '?';
    CutQueryDropsLine(p, q);
  }

  /** A query string without line breaks does not change the extension. */
  lemma ExtIgnoresQuery(p: string, q: string)
    requires '?' !in p && '\n' !in q
    ensures Ext(p + ['?'] + q) == Ext(p)
  {
    ExtCutsQuery(p, q);
    ExtQueryFree(p);
  }

  /** A tail of `m` characters without `c` stays inside what follows the last `c`. */
  lemma AfterLastKeepsTail(p: string, c: char, m: nat)
    requires m <= |p|
    requires forall j :: |p| - m <= j < |p| ==> p[j] != c
    ensures |AfterLast(p, c)| >= m
  {
  }

  lemma BasenameOfName(stem: string, e: string)
    requires '.' !in e && '/' !in e && e != []
    ensures var b := Basename(stem + ['.'] + e);
      |b| > |e| && b[|b| - |e| - 1] == '.' && b[|b| - |e|..] == e
  {
    var p := stem + ['.'] + e;
    var n := |stem|;
    assert p[|p| - 1] == e[|e| - 1];
    assert DropTrailing(p, '/') == p;
    forall j | n <= j < |p| ensures p[j] != '/' {
      if j > n { assert p[j] == e[j - n - 1]; }
    }
    AfterLastKeepsTail(p, '/', |e| + 1);
    var b := AfterLast(p, '/');
    assert b[|b| - |e| - 1] == p[n] == '.';
    assert b[|b| - |e|..] == p[n + 1..] == e;
  }

  lemma PathInfoExtensionOfName(stem: string, e: string)
    requires '.' !in e && '/' !in e && e != []
    ensures PathInfoExtension(stem + ['.'] + e) == e
  {
    BasenameOfName(stem, e);
    AfterDot(Basename(stem + ['.'] + e), e);
  }

  /** A name ending in `.e`, with no dot in `e`, has a dot and extension `e`. */
  lemma AfterDot(b: string, e: string)
    requires '.' !in e && |b| > |e| && b[|b| - |e| - 1] == '.' && b[|b| - |e|..] == e
    ensures '.' in b && AfterLast(b, '.') == e
  {
    var k := |b| - |e| - 1;
    assert b == b[..k] + ['.'] + e;
    AfterLastAppend(b[..k], '.', e);
  }

  /** A file name `stem.e` whose extension has no dot or slash: `ext` gives
      the extension lower-cased. */
  lemma ExtOfName(stem: string, e: string)
    requires '?' !in stem && '?' !in e
    requires '.' !in e && '/' !in e && e != []
    ensures Ext(stem + ['.'] + e) == Lower(e)
  {
    var p := stem + ['.'] + e;
    assert '?' !in p;
    ExtQueryFree(p);
    PathInfoExtensionOfName(stem, e);
  }
}
