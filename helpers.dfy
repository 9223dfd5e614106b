/** The global helper functions: `blank`/`filled`, `retry`,
    `class_basename`, `head` and `last`. */
module Helpers {
  import opened PhpLib

  // ---------------------------------------------------------------------------
  // blank / filled
  // ---------------------------------------------------------------------------

  /** A PHP value as `blank` tells its kinds apart. `Num` stands for any
      integer or float, `Countable` for an object implementing `Countable`
      (with its `count()`), `Object` for any other object. */
  datatype Value =
    | Null
    | Bool(b: bool)
    | Num(n: int)
    | Str(s: string)
    | Arr(items: seq<Value>)
    | Countable(count: nat)
    | Object

  /** `blank($value)`: null, a string that trims to nothing, an empty
      countable and an empty array are blank; numbers, booleans (even
      `false` and `0`) and other objects never are. */
  function Blank(v: Value): (r: bool)
    ensures r <==>
      || v.Null?
      || (v.Str? && forall i :: 0 <= i < |v.s| ==> IsTrimmed(v.s[i]))
      || (v.Countable? && v.count == 0)
      || (v.Arr? && |v.items| == 0)
  {
    match v
    case Null => true
    case Str(s) => TrimEmptyIff(s); Trim(s) == ""
    case Num(_) => false
    case Bool(_) => false
    case Countable(n) => n == 0
    case Arr(items) => |items| == 0
    case Object => false
  }

  /** `filled($value)`: the negation of `blank`. */
  function Filled(v: Value): (r: bool)
    ensures r <==>
      || v.Bool? || v.Num? || v.Object?
      || (v.Str? && exists i :: 0 <= i < |v.s| && !IsTrimmed(v.s[i]))
      || (v.Countable? && v.count > 0)
      || (v.Arr? && |v.items| > 0)
  {
    !Blank(v)
  }

  /** Unlike PHP's `empty`, `blank` keeps `"0"`, `0` and `false`. */
  lemma ZeroIsFilled(zero: string)
    requires zero == ['0']
    ensures Filled(Str(zero)) && Filled(Num(0)) && Filled(Bool(false))
  {
    assert !IsTrimmed(zero[0]);
  }

  /** White space, an empty array and an empty countable are blank. */
  lemma EmptyIsBlank(ws: string)
    requires ws == [' ', '\t', '\n']
    ensures Blank(Str(ws)) && Blank(Arr([])) && Blank(Countable(0))
  {
    assert forall i :: 0 <= i < |ws| ==> IsTrimmed(ws[i]);
  }

  // ---------------------------------------------------------------------------
  // retry
  // ---------------------------------------------------------------------------

  /** What one call of the callback does: return a value or throw. */
  datatype CallResult<T, E> = Returned(value: T) | Threw(error: E)

  /** The `$times` argument: a number of attempts, or an array of waits in
      milliseconds (one more attempt than waits). */
  datatype Times = Count(n: int) | Backoff(waits: seq<int>)

  /** The most attempts `retry` makes. */
  function Limit(times: Times): (r: nat)
    ensures r >= 1
    ensures times.Count? ==> r >= times.n
    ensures times.Backoff? ==> r == |times.waits| + 1
  {
    match times
    case Count(n) => if n < 1 then 1 else n
    case Backoff(waits) => |waits| + 1
  }

  /** The `$when` filter: no filter, or a predicate the exception must pass
      for another attempt. */
  predicate Accepts<E>(when: Option<E -> bool>, e: E)
  {
    when.None? || when.value(e)
  }

  /** Whether a thrown `e` leads to another attempt, attempts permitting:
      `catch (Exception $e)` catches it (an `\Error` is not an `Exception`
      and propagates at once) and the `$when` filter accepts it. */
  predicate Retriable<E>(catchable: E -> bool, when: Option<E -> bool>, e: E)
  {
    catchable(e) && Accepts(when, e)
  }

  /** The wait, in milliseconds, after failed attempt `k`: the backoff entry
      for it when there is one, otherwise the fixed wait. */
  function Delay(times: Times, sleepMs: int, k: nat): int
    requires k >= 1
  {
    if times.Backoff? && k - 1 < |times.waits| then times.waits[k - 1] else sleepMs
  }

  /** The `usleep`s done after the first `n` failed attempts (a zero wait
      does not sleep). */
  function Sleeps(times: Times, sleepMs: int, n: nat): (r: seq<int>)
    ensures |r| <= n
    ensures forall i :: 0 <= i < |r| ==> r[i] != 0
  {
    if n == 0 then []
    else Sleeps(times, sleepMs, n - 1) + (if Delay(times, sleepMs, n) != 0 then [Delay(times, sleepMs, n)] else [])
  }

  /** `retry($times, $callback, $sleepMilliseconds, $when)` against a
      callback given as the result of each attempt number, `catchable`
      telling which of its throwables are `Exception`s. Returns what the
      last call gave (its value, or the throwable that propagates), how many
      calls were made, and the waits slept. */
  method Retry<T, E>(times: Times, callback: nat -> CallResult<T, E>, sleepMs: int, when: Option<E -> bool>, catchable: E -> bool)
    returns (r: CallResult<T, E>, attempts: nat, sleeps: seq<int>)
    ensures 1 <= attempts <= Limit(times)
    ensures r == callback(attempts)
    ensures forall k :: 1 <= k < attempts ==> callback(k).Threw? && Retriable(catchable, when, callback(k).error)
    ensures r.Threw? && Retriable(catchable, when, r.error) ==> attempts == Limit(times)
    ensures sleeps == Sleeps(times, sleepMs, attempts - 1)
  {
    var backoff: seq<int> := [];
    var left: int;
    match times {
      case Count(n) =>
        left := n;
      case Backoff(waits) =>
        backoff := waits;
        left := |waits| + 1;
    }
    var sleep := sleepMs;
    attempts := 0;
    sleeps := [];
    while true
      invariant attempts < Limit(times)
      invariant left == (if times.Count? then times.n else |times.waits| + 1) - attempts
      invariant backoff == (if times.Backoff? then times.waits else [])
      invariant forall k :: 1 <= k <= attempts ==> callback(k).Threw? && Retriable(catchable, when, callback(k).error)
      invariant sleeps == Sleeps(times, sleepMs, attempts)
      invariant times.Count? ==> sleep == sleepMs
      decreases Limit(times) - attempts
    {
      attempts := attempts + 1;
      left := left - 1;
      r := callback(attempts);
      if r.Returned? {
        return;
      }
      if !catchable(r.error) {
        return;
      }
      if left < 1 || (when.Some? && !when.value(r.error)) {
        return;
      }
      sleep := if attempts - 1 < |backoff| then backoff[attempts - 1] else sleep;
      if sleep != 0 {
        sleeps := sleeps + [sleep];
      }
    }
  }

  /** With a backoff array of non-zero waits, the waits slept are a prefix
      of the array, in order. */
  lemma {:induction false} BackoffSleeps(waits: seq<int>, sleepMs: int, n: nat)
    requires n <= |waits|
    requires forall i :: 0 <= i < |waits| ==> waits[i] != 0
    ensures Sleeps(Backoff(waits), sleepMs, n) == waits[..n]
  {
    if n > 0 {
      BackoffSleeps(waits, sleepMs, n - 1);
      assert waits[..n] == waits[..n - 1] + [waits[n - 1]];
    }
  }

  /** With a fixed non-zero wait and an attempt count, every failed attempt
      but the last is followed by that wait. */
  lemma {:induction false} FixedSleeps(count: int, sleepMs: int, n: nat)
    requires sleepMs != 0
    ensures Sleeps(Count(count), sleepMs, n) == seq(n, _ => sleepMs)
  {
    if n > 0 {
      FixedSleeps(count, sleepMs, n - 1);
      assert seq(n, _ => sleepMs) == seq(n - 1, _ => sleepMs) + [sleepMs];
    }
  }

  // ---------------------------------------------------------------------------
  // class_basename, head, last
  // ---------------------------------------------------------------------------

  predicate IsClassSep(c: char)
  {
    c == '\\' || c == '/'
  }

  /** `class_basename($class)` on a class name: the part after the last
      namespace separator (`\` or `/`). */
  function ClassBasename(cls: string): (r: string)
    ensures forall i :: 0 <= i < |r| ==> !IsClassSep(r[i])
    ensures |cls| > 0 && !IsClassSep(cls[|cls| - 1]) ==>
      && 0 < |r| <= |cls| && r == cls[|cls| - |r|..]
      && (|r| < |cls| ==> IsClassSep(cls[|cls| - |r| - 1]))
  {
    ReplacedNoSep(cls);
    ReplacedSuffix(cls);
    Basename(ReplaceChar(cls, '\\', '/'))
  }

  /** After `str_replace('\\', '/')`, the basename holds no separator. */
  lemma ReplacedNoSep(cls: string)
    ensures var r := Basename(ReplaceChar(cls, '\\', '/'));
      forall i :: 0 <= i < |r| ==> !IsClassSep(r[i])
  {
    var s := ReplaceChar(cls, '\\', '/');
    var d := DropTrailing(s, '/');
    var r := AfterLast(d, '/');
    forall i | 0 <= i < |r| ensures !IsClassSep(r[i]) {
      var k := |d| - |r| + i;
      assert r[i] == d[k];
      assert d[k] == s[k];
      assert s[k] != '\\';
      assert r[i] in r;
    }
  }

  /** For a name not ending in a separator, the basename is a non-empty
      suffix of it, preceded by a separator when it is not all of it. */
  lemma ReplacedSuffix(cls: string)
    ensures var r := Basename(ReplaceChar(cls, '\\', '/'));
      |cls| > 0 && !IsClassSep(cls[|cls| - 1]) ==>
        && 0 < |r| <= |cls| && r == cls[|cls| - |r|..]
        && (|r| < |cls| ==> IsClassSep(cls[|cls| - |r| - 1]))
  {
    var s := ReplaceChar(cls, '\\', '/');
    if |cls| > 0 && !IsClassSep(cls[|cls| - 1]) {
      SeparatorsReplaced(cls);
      assert s[|s| - 1] != '/';
      var d := DropTrailing(s, '/');
      assert d == s;
      var r := AfterLast(s, '/');
      AfterLastIndexed(s, r);
      SuffixAfterSep(cls, s, r);
    }
  }

  /** `str_replace('\\', '/')` puts a `/` exactly where a separator was. */
  lemma SeparatorsReplaced(cls: string)
    ensures var s := ReplaceChar(cls, '\\', '/');
      && |s| == |cls|
      && (forall k :: 0 <= k < |s| ==> (s[k] == '/' <==> IsClassSep(cls[k])))
      && (forall k :: 0 <= k < |s| && s[k] != '/' ==> s[k] == cls[k])
  {
  }

  /** `AfterLast`'s result, index by index. */
  lemma AfterLastIndexed(s: string, r: string)
    requires r == AfterLast(s, '/')
    ensures |r| <= |s| && forall i :: 0 <= i < |r| ==> r[i] == s[|s| - |r| + i] && r[i] != '/'
    ensures |r| < |s| ==> s[|s| - |r| - 1] == '/'
  {
    forall i | 0 <= i < |r| ensures r[i] == s[|s| - |r| + i] && r[i] != '/' {
      assert r[i] in r;
    }
  }

  /** The part of `s` after its last `/` is a suffix of `cls` when `s` has a
      `/` exactly where `cls` has a separator and agrees with it elsewhere. */
  lemma SuffixAfterSep(cls: string, s: string, r: string)
    requires |s| == |cls| && |cls| > 0 && !IsClassSep(cls[|cls| - 1])
    requires forall k :: 0 <= k < |s| ==> (s[k] == '/' <==> IsClassSep(cls[k]))
    requires forall k :: 0 <= k < |s| && s[k] != '/' ==> s[k] == cls[k]
    requires |r| <= |s| && forall i :: 0 <= i < |r| ==> r[i] == s[|s| - |r| + i] && r[i] != '/'
    requires |r| < |s| ==> s[|s| - |r| - 1] == '/'
    ensures 0 < |r| <= |cls| && r == cls[|cls| - |r|..]
    ensures |r| < |cls| ==> IsClassSep(cls[|cls| - |r| - 1])
  {
    assert s[|s| - 1] != '/';
    forall i | 0 <= i < |r| ensures r[i] == cls[|cls| - |r| + i] {
      assert r[i] == s[|cls| - |r| + i] && r[i] != '/';
    }
  }

  /** The name after the last separator of a qualified class name is its
      basename, e.g. `User` for `App\Models\User`. */
  lemma ClassBasenameOfQualified(ns: string, sep: char, name: string)
    requires IsClassSep(sep) && |name| > 0
    requires forall i :: 0 <= i < |name| ==> !IsClassSep(name[i])
    ensures ClassBasename(ns + [sep] + name) == name
  {
    var cls := ns + [sep] + name;
    var r := ClassBasename(cls);
    assert cls[|cls| - 1] == name[|name| - 1];
    assert cls[|cls| - |name| - 1] == sep;
    assert cls[|cls| - |name|..] == name;
  }

  /** `head($array)`: the first element, or `false` (here `None`) for an
      empty array. */
  function Head<T>(xs: seq<T>): (r: Option<T>)
    ensures r.None? <==> |xs| == 0
    ensures r.Some? ==> r.value == xs[0]
  {
    if |xs| == 0 then None else Some(xs[0])
  }

  /** `last($array)`: the last element, or `false` (here `None`) for an
      empty array. */
  function Last<T>(xs: seq<T>): (r: Option<T>)
    ensures r.None? <==> |xs| == 0
    ensures r.Some? ==> r.value == xs[|xs| - 1]
  {
    if |xs| == 0 then None else Some(xs[|xs| - 1])
  }

  /** The reverse of an array (`array_reverse`). */
  function Reverse<T>(xs: seq<T>): (r: seq<T>)
    ensures |r| == |xs|
    ensures forall i :: 0 <= i < |xs| ==> r[i] == xs[|xs| - 1 - i]
  {
    if |xs| == 0 then [] else Reverse(xs[1..]) + [xs[0]]
  }

  /** The first element is the last one of the reversed array. */
  lemma HeadIsLastOfReverse<T>(xs: seq<T>)
    ensures Head(xs) == Last(Reverse(xs))
  {
  }

  /** Appending leaves the first element alone; prepending leaves the last. */
  lemma HeadLastConcat<T>(xs: seq<T>, ys: seq<T>)
    ensures |xs| > 0 ==> Head(xs + ys) == Head(xs)
    ensures |ys| > 0 ==> Last(xs + ys) == Last(ys)
    ensures |xs| == 0 ==> Head(xs + ys) == Head(ys)
    ensures |ys| == 0 ==> Last(xs + ys) == Last(xs)
  {
    if |ys| == 0 {
      assert xs + ys == xs;
    }
    if |xs| == 0 {
      assert xs + ys == ys;
    }
  }
}
