# pkg6/helper in Dafny

A model of the core of the PHP helper library `pkg6/helper`:

- `FileSystem`'s pure string helpers: `normalizePath`, `joinPaths`, `isAbsolute`, the unit choice of `format`, and `ext`.
- `FileSystem`'s tree operations: `createDir`, `delete`, `copy`, `rename`, `makeWritable`, `ls`, `size`, `rmdir` and `unlink`.
- The global helpers `blank`, `filled`, `retry`, `class_basename`, `head` and `last`.
- `Timer::dateFormat`.

## How the file system is modelled

- **The host file system.** It is the field `nodes` of the class `FsOps.FileSystem`. This is a map from paths to nodes.
  - A path is a sequence of names. The root is `[]`.
  - A node is a file (a size in bytes and a mode), a directory (a mode) or a link.
  - `ValidTree` requires every ancestor of an entry to be a directory.
  - A link stands for a dangling symbolic link, one whose target does not exist. `is_file`, `is_dir` and `file_exists` follow links, so they are false on it, and `is_link` is true.
- **Host calls.** The PHP functions call the host's `mkdir`, `unlink`, `rmdir`, `chmod`, `rename`, `fopen` and `stream_copy_to_stream`. These are the `Os*` methods of the class, plus the steps inside `CopyFile`. Every directory iterator (`FilesystemIterator`, `RecursiveDirectoryIterator`) also opens each directory it lists, the empty ones included; that `opendir` is the operation `OpenDir`.
- **Host failures.** Any of these calls can fail on a given path, for reasons outside the model (permissions, a busy file). The constant set `faults` lists the (operation, path) pairs the host refuses. The root can never be removed or renamed.
- **Call trace.** The ghost field `calls` records every removal and `chmod` the host is asked for. This is how the order properties are stated, e.g. children before their parent.
- **Exceptions.** A PHP `ErrorException` is an `Outcome` of `Failed(error)`, with one `FsError` constructor per message. The `UnexpectedValueException` an iterator throws on a directory it cannot open is `CannotOpenDir(path)`; nothing in the source catches it, so it ends the whole operation. `ls`, `size` and `rmdir` return a `Result`.
- **Iteration order.** Directory listings are sets. Where the source walks a directory, the model walks a snapshot of its entries in an unspecified order. The one exception is `copy`: there the walk takes a shortest remaining entry each time, which visits parents before their entries, as the self-first recursive iterator does, but is not that iterator's depth-first order.

## Model

| member | source | states |
|---|---|---|
| FsPaths.NormalizePath | src/FileSystem.php:363-377 | the loop over the split parts yields exactly `Normalize(path, sep)`: split on runs of `/` and `\`, `.` dropped, `..` pops a real name, `['']` becomes the separator |
| FsPaths.ResolveIsResolved | src/FileSystem.php:366-373 | the resolved stack holds no `.` and no `..` after a real name |
| FsPaths.ResolveFixed | src/FileSystem.php:366-373 | resolving an already resolved list changes nothing |
| FsPaths.ResolveKeepsParts | src/FileSystem.php:366-373 | every part of the result is one of the input parts |
| FsPaths.ResolveEmptyOnlyAtEnds | src/FileSystem.php:365-373 | empty parts (a leading or trailing separator) never end up in the middle of the result |
| FsPaths.SplitJoin | src/FileSystem.php:365 | `preg_split('~[/\\]+~')` of segments joined by one separator gives the segments back |
| FsPaths.NormalizeIdempotent | src/FileSystem.php:363-377 | `normalizePath(normalizePath(p)) == normalizePath(p)` |
| FsPaths.JoinPathsIsNormal | src/FileSystem.php:354-357 | the result of `joinPaths` is already normal; for one argument, `joinPaths` is `normalizePath` of it |
| FsPaths.IsAbsoluteIff | src/FileSystem.php:345-348 | `isAbsolute` holds exactly when the path starts with a separator, with a drive letter, `:` and a separator, or with a scheme followed by `://` |
| FsPaths.Exponent | src/FileSystem.php:68 | `exp` is the exact whole part of log base 1024, `1024^exp <= bytes < 1024^(exp+1)`; this is the mathematical value that `floor(log/log)` approximates in doubles |
| FsPaths.Format | src/FileSystem.php:61-75 | a non-positive size renders `0 B`; otherwise the exact quotient lies in `[1, 1024)`, the unit is `symbols[exp]`, and a size in bytes gets no decimals |
| FsPaths.FormatIntInTable | src/FileSystem.php:63-71 | for every PHP integer, the exponent is at most 6, so the unit is always in the table |
| FsPaths.Ext | src/FileSystem.php:81-91 | the extension has no `.` or `/` and no upper-case letter |
| FsPaths.CutQueryDropsLine | src/FileSystem.php:86-88 | `preg_replace('#\?(.*)#', '')` removes everything from the first `?` to the end of the line |
| FsPaths.ExtIgnoresQuery | src/FileSystem.php:81-91 | a query string without line breaks does not change the extension |
| FsPaths.ExtOfName | src/FileSystem.php:81-91 | the extension of `stem.e` is `e` in lower case |
| FsOps.FileSystem.OsMkdirAll | src/FileSystem.php:151 | recursive `mkdir`: creates the missing ancestors with the mode and fails on the first refused one; nothing else changes |
| FsOps.FileSystem.CreateDir | src/FileSystem.php:149-159 | succeeds exactly when the path is a directory already or every missing level may be made; only missing ancestors are added; the error is `MkdirFailed(dir, mode)` |
| FsOps.FileSystem.Unlink | src/FileSystem.php:405-412 | true exactly for a file the host lets go; the file is then gone and nothing else changes |
| FsOps.FileSystem.OsUnlink | src/FileSystem.php:214 | the host `unlink` (also at line 408) succeeds exactly when it is not refused; it removes only that entry and records the call |
| FsOps.FileSystem.OsRmdir | src/FileSystem.php:225 | the host `rmdir` (also at line 397) succeeds exactly when it is not refused and the directory is empty; it removes only that directory and records the call |
| FsOps.FileSystem.ClearDir | src/FileSystem.php:220-223 | deleting every entry of a directory succeeds exactly when the directory can be listed and every entry below it is removable (`Clearable`); a failure names a refused `unlink`, `rmdir` or listing strictly below it, or the listing of the directory itself; only entries below it go, and every removal is below it, children first |
| FsOps.FileSystem.Delete | src/FileSystem.php:210-232 | succeeds exactly when every entry at or below the path can be removed and every directory among them listed (`Removable`), and then nothing at or below the path is left; a failure names a refused `unlink`, `rmdir` or listing at or below it; only entries at or below it go; removals come children first; a missing path is a silent no-op |
| FsOps.FileSystem.Rmdir | src/FileSystem.php:384-399 | `Ok(false)` exactly when the path is no directory, and then nothing changes; the iterator's exception (`CannotOpenDir` of an unlistable directory below it) exactly when some directory at or below it cannot be listed; on `Ok(true)` an entry below it survives exactly when its removal is blocked, as the source is written (`Stuck`, with the flag not passed down); stuck entries survive whatever the outcome; only removals below it are made |
| FsOps.FileSystem.RmdirPassingFlag | src/FileSystem.php:384-399 | the same walk with `$unlink` passed to the nested calls: the same outcomes, and with `$unlink = false` no file anywhere is removed, whatever the outcome |
| FsRmdir.RmdirFlagLost | src/FileSystem.php:392 | a tree `a/s/f` in which `rmdir('a', false)` removes the file `a/s/f` |
| FsRmdir.FlagKeepsFiles | src/FileSystem.php:391-395 | when the flag is passed down, a file below the directory always survives `rmdir(d, false)` |
| FsRmdir.StuckDir | src/FileSystem.php:388-397 | a directory survives exactly when its own `rmdir` is refused or one of its children survives |
| FsOps.FileSystem.ListedAll | src/FileSystem.php:389-396 | once every child of a listable directory has been walked without an exception, every directory below it was listable |
| FsOps.FileSystem.MakeWritable | src/FileSystem.php:314-339 | succeeds exactly when the path exists and nothing at or below it is a link, refuses `chmod` or is a directory that cannot be listed; it then sets every file to the file mode and every directory to the directory mode; a failure names its cause; `chmod`s come children first |
| FsOps.FileSystem.OsChmod | src/FileSystem.php:317 | the host `chmod` (also at line 328) succeeds exactly when it is not refused; it changes only that entry's mode and records the call |
| FsWritable.BlameNotWritable | src/FileSystem.php:316-338 | every error `makeWritable` reports shows that the tree was not writable |
| FsWritable.RewrittenValid | src/FileSystem.php:314-339 | changing modes keeps the tree well formed |
| FsOps.FileSystem.Size | src/FileSystem.php:18-30 | succeeds exactly for a directory all of whose directories can be listed, with the sum of the sizes of all files below it; `CannotOpenDir` of the path when it is no directory, else of a directory below it that cannot be listed |
| FsListing.TotalSizeUnion | src/FileSystem.php:24-28 | the summed size is additive over disjoint sets of files |
| FsOps.FileSystem.Ls | src/FileSystem.php:36-54 | `NotADirectory` when not a directory; `CannotOpenDir` of an unlistable directory below it exactly when there is one; otherwise every non-directory entry below it, each once, sorted by the given total preorder |
| FsOps.FileSystem.FindUnopenable | src/FileSystem.php:22 | finds a directory at or below the path that the iterator cannot open, exactly when there is one |
| FsListing.InsertSorted | src/FileSystem.php:50-52 | inserting into a sorted listing keeps it sorted |
| FsOps.FileSystem.OsRename | src/FileSystem.php:253 | the host `rename` moves the whole subtree; it refuses a move into the origin's own subtree |
| FsOps.FileSystem.Rename | src/FileSystem.php:241-261 | succeeds exactly when `RenameAllowed`: the target may be taken, the origin exists, the target's parent is or can be made, the old target can be deleted, neither path lies strictly under the other and the host allows the rename; `AlreadyExists` before `NotFound`; `MkdirFailed` only for a parent that cannot be made, a delete error only for a refused call under the target; on success every entry of the origin sits at its rebased path with the same node, nothing is left under the origin, and entries outside both paths are unchanged |
| FsOps.FileSystem.TargetKept | src/FileSystem.php:248-250 | creating the target's parent does not change whether the old target can be deleted, nor what blames its deletion |
| FsMove.MoveTreeFacts | src/FileSystem.php:253 | a move keeps every moved node at its image and every other entry in place, and leaves a well-formed tree |
| FsMove.RebaseInjective | src/FileSystem.php:253 | distinct entries of the origin land on distinct targets |
| FsOps.FileSystem.CopyFile | src/FileSystem.php:189-202 | the parent is created or the copy raises `MkdirFailed`; a failed `fopen` is silently ignored; otherwise the target is truncated and then holds the origin's bytes, unless the stream copy fails, which raises `CopyFailed` with the target left empty; a dangling link as target is written through (its new file lies outside the model), and a refused stream copy through it also raises `CopyFailed` |
| FsOps.FileSystem.Copy | src/FileSystem.php:168-203 | `NotFound` before `AlreadyExists`; a file takes the file branch; for a directory and a disjoint target: success when `CopyAllowed`, every failure explained by `DirCopyBlame` (a refused call or a link), success leaves the origin unchanged and the target a mirror of it, except files whose `fopen` the host refused, which the source skips silently; entries are visited parents first |
| FsOps.FileSystem.CopyDir | src/FileSystem.php:176-188 | make the target, empty it, open the origin, walk it: with a disjoint target, `CopyAllowed` gives success, a failure is blamed on the target (`mkdir` or delete refused) or on the walk, and success is `Mirror` |
| FsOps.FileSystem.CopyWalk | src/FileSystem.php:182-188 | visits each entry of the origin once, no entry after one of its descendants; gets through when `WalkAllowed`, otherwise fails with a `WalkBlame`; keeps the mirror invariant `WalkLoop` |
| FsOps.FileSystem.CopyItem | src/FileSystem.php:183-187 | a directory entry gets a directory at its image and is then opened; a dangling link raises `NotFound`; a file is copied; the mirror invariant is kept, and a failure is a refused `mkdir` of an image, `opendir` or stream copy, or a link |
| FsOps.FileSystem.ImageMkdirBlame | src/FileSystem.php:184 | when the image of an origin directory cannot be made, the `mkdir` of the image of some origin directory on its way is refused |
| FsOps.FileSystem.BlameRefutesCopy | src/FileSystem.php:176-188 | every blamed cause of failure contradicts `CopyAllowed`, so a directory copy fails exactly for a cause it names |
| FsOps.FileSystem.ClearKept | src/FileSystem.php:177-180 | making the target adds nothing below it, so emptying it is allowed and blamed as on the tree before |
| FsOps.FileSystem.CopyEnds | src/FileSystem.php:176-188 | once every entry has been visited, the invariant is the mirror property stated on the starting tree |
| FsCopy.OriginKept | src/FileSystem.php:177-180 | making and emptying a target disjoint from the origin leaves the origin's subtree as it was |
| FsCopy.ParentsFirstAppend | src/FileSystem.php:182 | visiting a shortest remaining entry keeps the visit order parents first |
| Helpers.Blank | src/function.php:38-53 | null, a string of trimmable characters only, an empty countable and an empty array are blank; numbers, booleans and other objects never are |
| Helpers.Filled | src/function.php:62-65 | the exact complement of `blank`, stated case by case |
| Helpers.ZeroIsFilled | src/function.php:43-48 | `"0"`, `0` and `false` are filled |
| Helpers.EmptyIsBlank | src/function.php:43-52 | white space, `[]` and an empty countable are blank |
| Helpers.Retry | src/function.php:78-101 | passes attempt numbers 1, 2, 3… and returns what the last call gave; every earlier call threw an `Exception` (not an `Error`) that `when` accepted; a final throwable that both would let through means the attempt limit (`max(n, 1)`, or the backoff length plus one) was reached; the sleeps are exactly `Sleeps(...)` |
| Helpers.BackoffSleeps | src/function.php:95-98 | with a backoff array of non-zero waits, the waits slept after `n` failures are the first `n` entries |
| Helpers.FixedSleeps | src/function.php:95-98 | with an attempt count and a non-zero wait, every failure but the last is followed by that wait |
| Helpers.ClassBasename | src/function.php:25-29 | the result has no separator; for a name not ending in one, it is the part after the last `\` or `/` |
| Helpers.ClassBasenameOfQualified | src/function.php:25-29 | `class_basename(ns\Name)` is `Name` |
| Helpers.HeadIsLastOfReverse | src/function.php:110-126 | `head(a) == last(array_reverse(a))` |
| Helpers.HeadLastConcat | src/function.php:110-126 | appending keeps `head`, prepending keeps `last` |
| Timer.DateFormat | src/Timer.php:32-53 | `''` for a non-numeric timestamp, and exactly outside `[-PHP_INT_MAX, PHP_INT_MAX)`; `将来` for the future; `刚刚` for under a minute |
| Timer.FirstMatch | src/Timer.php:47-52 | the first row whose range holds the elapsed time, or none when no row does |
| Timer.UniqueMatch | src/Timer.php:38-49 | at most one row holds any elapsed time, so the first match is the only one |
| Timer.TableMatchesBucket | src/Timer.php:38-52 | the table lookup agrees with a plain chain of comparisons (`Bucket`) |
| Timer.CountBounds | src/Timer.php:41-45 | minutes 1..59, hours 1..23, days 1..29, months 1..12, years at least 1 |
| Timer.CountedLabel | src/Timer.php:41-45 | a counted label is the number of whole units elapsed followed by the unit's word |
| Timer.IntMaxHasNoLabel | src/Timer.php:45-52 | elapsed time equal to `PHP_INT_MAX` gives `''` |
| Timer.NatToStringRoundTrip | src/Timer.php:41-45 | the decimal numeral in the label reads back as the count |

## Left out

- I/O in general: file contents are modelled by their size only; `read`, `write`, `base`, `filename`, `dirName`, `real` and `isFile` are not part of this model.
- The Windows branches (`DIRECTORY_SEPARATOR === '\\'` in `delete`, drive-relative paths): the host is POSIX.
- The umask: created directories and files get the requested mode unchanged.
- Error message texts: each exception is identified by its `FsError` constructor and the paths it names.
- `realpath` in `rename`: two paths are the same file only when they are equal, since every modelled link is dangling.
- Symbolic links to existing files or directories are not modelled; every `Link` is dangling. PHP's file tests follow such a link, so on one the source differs from the model: `makeWritable` chmods its target, `size` counts a linked file, `copy` and `rename` accept a link as origin, `rmdir($d, true)` unlinks a link to a file, and the `!$item->isLink()` guard of `rmdir` decides whether a link to a directory is descended into. With dangling links only, that guard never changes the outcome.
- FsOps.FileSystem.Ls: `natsort` is taken as an arbitrary total preorder on paths; PHP's natural-order comparison and the keys `natsort` keeps are not modelled.
- FsOps.FileSystem.Size: `(int)` of a float sum and sizes above `PHP_INT_MAX` are not modelled. An unlistable directory is `Err(CannotOpenDir)`, where the iterator throws; which one is named when several are is left open.
- Directory iteration is over a snapshot of the entries taken when the walk starts. The lazy iterator's view of entries created or removed during the walk is not modelled.
- FsOps.FileSystem.Copy: the mirror property and the failure causes are stated only for a target disjoint from the origin. For a target inside the origin, or an origin inside the target, only well-formedness and the visit order are stated.
- FsOps.FileSystem.Copy: `stream_is_local` is taken as true (no stream wrappers); a `fopen` refused by the host is skipped silently, as the source does.
- FsOps.FileSystem.Rename: the host's refusal is keyed on the origin path only.
- FsOps.FileSystem.CopyWalk: the walk takes the entries by depth, shortest first, not in the depth-first preorder of `RecursiveIteratorIterator::SELF_FIRST`. Both put parents first, and a successful copy ends the same; on a failure, which error is raised first and which part of the copy is left behind can differ.
- FsPaths.Exponent: the exponent is the exact integer logarithm. PHP computes `floor(log($bytes) / log(1024))` in doubles, which is one too high just below some powers of 1024 (for example for 1125899906842621 to 1125899906842623, just below 1024^5) and can differ next to 2^60; those sizes are not modelled as PHP renders them.
- FsPaths.Format: the value is the exact quotient `bytes / 1024^exp`; its rounding by `number_format` to the given decimals is not modelled, so a size such as 1048575 that rounds up to `1024.00 KB` is stated as a value below 1024. The exponent is `FsPaths.Exponent`'s exact one.
- Helpers.Retry: the callback is a pure function of the attempt number, and the parameter `catchable` says which of its throwables are `Exception`s; a closure given as the wait (`value($sleepMilliseconds, $attempts)`) and a `null` entry in the backoff array are not modelled; negative waits are recorded as given; the sleeps are recorded, not performed.
- Helpers.Blank: floats, resources and numeric strings are not told apart beyond their kind: every number is `Num` (never blank), and every string goes through `trim`.
- Helpers.ClassBasename: objects (`get_class`) are not modelled, only class names.
- Timer.DateFormat: `time()` is the parameter `now`; float timestamps, float division and rounding for elapsed times above 2^53, and integer overflow of `time() - $timestamp` are not modelled.
- `Timer::microTime`, `Timer::milliTime`, `cpu_count`, `value`, `call` and `tap` are not part of this model: they are clock reads, shell calls and dynamic callable dispatch.

## Findings

| source | as written | input that shows it | evidently intended | confidence | as-written member | corrected member |
|---|---|---|---|---|---|---|
| src/FileSystem.php:392 | the recursive `static::rmdir($item->getPathname())` drops `$unlink`, so the nested calls use the default `true` | `rmdir('a', false)` on a tree `a/s/f` with `f` a file: `a/s/f` is unlinked | `$unlink` passed down, so that `rmdir($d, false)` never unlinks a file | medium, not executed | FsRmdir.RmdirFlagLost | FsOps.FileSystem.RmdirPassingFlag |
