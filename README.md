# common-prefix

A model of `common-prefix.py`, a command-line helper for build scripts. It
prints the common parent directory of its path arguments, followed by a
path separator. For `src/a src/foo/b src/bar/c` it prints `src/`.

`main(argv)` goes through these steps:

1. It refuses to run without a path argument (usage message, status 1).
2. It collapses the arguments to a set.
3. A lone `.` or `./` prints `./` directly.
4. It takes `os.path.commonpath` of the set.
5. It falls back to `os.path.dirname` when that prefix is not a directory. That happens with a single file argument, and also when the prefix is the empty path.
6. It prints the result with a separator appended (status 0).

The model is pure: datatypes, functions and lemmas in three modules.

- `ComponentPrefix` (`component_prefix.dfy`) holds the longest common prefix of lists. It is stated generically and proved shared and maximal.
- `PosixPath` (`posix_path.dfy`) holds the parts of POSIX `os.path` that `main` calls:
  - `split('/')`;
  - the component list that `commonpath` works on, without empty and `.` components;
  - `commonpath` itself, including the mixed absolute/relative error;
  - `dirname`, with its `rfind` and `rstrip`.

  Each has its own contract: the split/join round trip, shared and maximal prefix, and "drops exactly the last component".
- `CommonPrefixTool` (`common_prefix.dfy`) holds `main` as the function `CommonPrefix(argv, isDir)` and the properties of the command. The filesystem query `os.path.isdir` is the parameter `isDir`. The outcome is `UsageError`, `MixedPaths` (the uncaught `ValueError`) or `Ok(line)`. `ExitStatus` maps each outcome to the process status.

`main` appends one separator to whatever `dirname` or `commonpath` returns. The header example at common-prefix.py:3 has the shape of every intended line: a directory followed by one separator (`src/`). The comment at common-prefix.py:18 says the root `/` must not come out for relative arguments. The code misses both in two cases:

- When the directory is the root `/`, the line is `//`.
- When it is the empty path, the line is `/`.

`CommonPrefix` models the command as written. The corrected variant `CommonPrefixIntended` is listed under Findings.

## Model

| member | source | states |
|---|---|---|
| CommonPrefixTool.CommonPrefix | common-prefix.py:8-31 | `main`: a usage error exactly when there is no path argument; every printed line ends in the separator |
| CommonPrefixTool.ExitStatus | common-prefix.py:11 | status 0 exactly when a line was printed; the usage error and the uncaught mixed-root error give 1 |
| CommonPrefixTool.NoPathsIsUsageError | common-prefix.py:9-11 | no path argument ⇔ usage error with status 1; otherwise status 0 unless the paths mix absolute and relative |
| CommonPrefixTool.PathArgs | common-prefix.py:9-14 | `argv[1:]`: empty exactly when there is no path argument; otherwise `argv` is the program name followed by it |
| CommonPrefixTool.Dedup | common-prefix.py:14 | `list(set(...))`: the same elements as the arguments, each once |
| CommonPrefixTool.OrderAndDuplicatesIrrelevant | common-prefix.py:14 | two argument vectors with the same set of paths give the same outcome (order, repetition and program name do not matter) |
| CommonPrefixTool.SoloCurDir | common-prefix.py:17 | the solo-`.` test: when it holds there is one path, relative and without any component |
| CommonPrefixTool.SoloCurDirOfSet | common-prefix.py:14-17 | on a duplicate-free listing, the solo-`.` test holds exactly when the set of paths is `{"."}` or `{"./"}` |
| CommonPrefixTool.SoloCurDirPrintsCurDir | common-prefix.py:17-21 | if the set of paths is `{"."}` or `{"./"}`, the outcome is `./` with status 0, whatever `isDir` says |
| CommonPrefixTool.PrefixOfDistinct | common-prefix.py:17-31 | the error outcome arises exactly when the solo-`.` case does not apply and the paths mix absolute and relative; every line ends in the separator |
| CommonPrefixTool.CommonPathOfDedup | common-prefix.py:14-23 | `commonpath` of the deduplicated list equals `commonpath` of the arguments themselves |
| CommonPrefixTool.IsDirectory | common-prefix.py:24 | `os.path.isdir` over the abstract file system: the empty path is never a directory |
| CommonPrefixTool.DirectoryOf | common-prefix.py:24-27 | the directory printed is a prefix of the common path, empty exactly when that path is not a directory and has no separator |
| CommonPrefixTool.FileFallback | common-prefix.py:23-30 | if the common path `c` is a directory, `c` + `/` is printed; otherwise `dirname(c)` + `/`, which has exactly one component fewer than `c` (none fewer if `c` has none) and the same root |
| CommonPrefixTool.PastSoloCase | common-prefix.py:17-30 | past the usage check and the solo-`.` case, the line is `DirectoryOf` the arguments' `commonpath`, plus `/` |
| CommonPrefixTool.CommonDirectoryPrinted | common-prefix.py:23-30 | with two different arguments whose `commonpath` is a directory, that directory plus `/` is printed |
| CommonPrefixTool.DocumentedExample | common-prefix.py:3 | `src/a src/foo/b src/bar/c` prints `src/` when `src` is a directory |
| CommonPrefixTool.SiblingsShareParent | common-prefix.py:3 | the general form of the example: `s/a`, `s/f/b`, `s/r/c` with `f ≠ r` print `s/` |
| CommonPrefixTool.SiblingsCommonPath | common-prefix.py:23 | `commonpath` of `s/a`, `s/f/b`, `s/r/c` with `f ≠ r` is `s` |
| CommonPrefixTool.CommonPathOfOne | common-prefix.py:23 | `commonpath` of one path is that path normalized: its root and components rejoined |
| CommonPrefixTool.SingleArgument | common-prefix.py:17-30 | one argument other than `.`/`./` prints its normalized form (or its `dirname`) plus `/` |
| CommonPrefixTool.SingleFileGivesContainingDirectory | common-prefix.py:24-27 | one file argument prints the directory containing it: its components minus the last, same root |
| CommonPrefixTool.SingleDirectoryIsKept | common-prefix.py:24-30 | one directory argument prints that directory, normalized, plus `/` |
| CommonPrefixTool.RerunIsStable | common-prefix.py:17-30 | a printed line other than `/`, either `./` or a line whose part before the last separator is a directory, fed back as the only argument prints the same line again |
| CommonPrefixTool.RerunOfDirectory | common-prefix.py:17-30 | a normalized directory plus `/`, given as the only argument, is printed unchanged |
| CommonPrefixTool.WithTrailingSep | common-prefix.py:23 | for a non-empty path, a trailing separator changes neither its components nor whether it is absolute |
| CommonPrefixTool.PrintedLineShape | common-prefix.py:20-30 | every printed line is `./` or a normalized directory plus `/`, and that directory is absolute exactly when the arguments are |
| CommonPrefixTool.DirectoryOfNormalized | common-prefix.py:24-27 | both branches of the fallback give a normalized path with the root of the common path |
| CommonPrefixTool.RelativeFileEscapesToRoot | common-prefix.py:23-30 | as written: one relative file name prints `/` |
| CommonPrefixTool.EmptyCommonEscapesToRoot | common-prefix.py:23-30 | as written: past the solo-`.` case, arguments whose `commonpath` is empty print `/`, whatever `isDir` says |
| CommonPrefixTool.SiblingFilesEscapeToRoot | common-prefix.py:23-30 | as written: two different relative names of one component each print `/` |
| CommonPrefixTool.CurDirSpellingsEscapeToRoot | common-prefix.py:17-30 | as written: `.` and `./` together bypass the solo-`.` case and print `/` |
| CommonPrefixTool.RootLineRerunDoubles | common-prefix.py:17-30 | as written: the line `/` fed back as the only argument prints `//` when the root is a directory; the corrected command prints `/` again |
| CommonPrefixTool.RootFileDoublesSeparator | common-prefix.py:23-30 | as written: one file directly under the root prints `//` |
| CommonPrefixTool.RootCommonDoublesSeparator | common-prefix.py:23-30 | as written: two absolute paths that share only the root print `//` |
| CommonPrefixTool.AsDirectoryLine | common-prefix.py:30 | corrected printing: the line always ends in the separator |
| CommonPrefixTool.AsDirectoryLineShape | common-prefix.py:30 | the corrected line ends in exactly one separator and is absolute exactly when the directory is |
| CommonPrefixTool.CommonPrefixIntended | common-prefix.py:8-31 | corrected `main`: same usage error and same mixed-root error as written; every line ends in the separator |
| CommonPrefixTool.IntendedLineIsWellFormed | common-prefix.py:20-30 | the corrected line ends in exactly one separator and is relative whenever all arguments are |
| CommonPrefixTool.IntendedAgreesElsewhere | common-prefix.py:8-31 | wherever the command as written prints neither `/` nor `//`, the corrected one prints the same |
| CommonPrefixTool.IntendedFixesFindings | common-prefix.py:18-30 | where the command as written prints `/` the corrected one prints `./`; where it prints `//`, `/` |
| ComponentPrefix.CommonPrefix2 | common-prefix.py:23 | a prefix of both lists, and where it stops the lists differ or one ends |
| ComponentPrefix.CommonPrefix2Maximal | common-prefix.py:23 | every common prefix of two lists is a prefix of `CommonPrefix2` |
| ComponentPrefix.LongestCommonPrefix | common-prefix.py:23 | a prefix of every list |
| ComponentPrefix.LongestCommonPrefixMaximal | common-prefix.py:23 | every prefix shared by all lists is a prefix of it, so none is longer |
| ComponentPrefix.LongestCommonPrefixOfSameElements | common-prefix.py:14-23 | depends only on which lists occur |
| PosixPath.Split | common-prefix.py:23 | `p.split('/')` gives at least one piece |
| PosixPath.SplitPiecesHaveNoSep | common-prefix.py:23 | no piece contains the separator |
| PosixPath.JoinSep | common-prefix.py:23 | `'/'.join(cs)`: empty for no pieces; with several, the first piece is followed by a separator |
| PosixPath.JoinSepOfSplit | common-prefix.py:23 | `'/'.join(p.split('/')) == p` |
| PosixPath.SplitJoinSep | common-prefix.py:23 | splitting a join of separator-free pieces gives the pieces back |
| PosixPath.SplitConcat | common-prefix.py:23 | splitting `x + '/' + y` gives the pieces of `x` followed by those of `y` |
| PosixPath.Keep | common-prefix.py:23 | a piece is kept exactly when it is neither empty nor `.`; a list of valid components is kept whole |
| PosixPath.KeepConcat | common-prefix.py:23 | the filter keeps order: filtering `a + b` is filtering `a`, then `b` |
| PosixPath.Components | common-prefix.py:23 | every component is non-empty, not `.`, and free of separators |
| PosixPath.Join | common-prefix.py:23 | `prefix + sep.join(common)`: absolute when the root is kept, and one character longer than the joined components exactly then |
| PosixPath.ComponentsOfJoin | common-prefix.py:23 | joining valid components under a root and taking components back gives the same components and root |
| PosixPath.SplitJoin | common-prefix.py:23 | the pieces of a joined path: a leading empty piece for the root, then the components |
| PosixPath.CommonPath | common-prefix.py:23 | `commonpath`: the error case exactly when absolute and relative paths are mixed |
| PosixPath.CommonPathNormalized | common-prefix.py:23 | the result is normalized and has the shared root |
| PosixPath.CommonPathIsSharedPrefix | common-prefix.py:23 | the result's components are a prefix of every path's, with the same root |
| PosixPath.CommonPathIsMaximal | common-prefix.py:23 | every component list shared by all paths is a prefix of the result's |
| PosixPath.CommonPathOfSameElements | common-prefix.py:14-23 | `commonpath` depends only on the set of paths |
| PosixPath.RFindSep | common-prefix.py:27 | `p.rfind('/')`: the last separator's index, or -1 when there is none |
| PosixPath.RStripSep | common-prefix.py:27 | `rstrip('/')`: the longest prefix not ending in the separator, and only separators were removed |
| PosixPath.Dirname | common-prefix.py:27 | `os.path.dirname`: a prefix of the path, empty exactly when the path has no separator |
| PosixPath.DropLast | common-prefix.py:27 | a prefix of the component list with one element fewer, or none when it is empty |
| PosixPath.DirnameOfJoin | common-prefix.py:27 | `dirname` of a normalized path drops its last component and keeps the root |
| PosixPath.DirnameOfNormalized | common-prefix.py:27 | `dirname` of a normalized path is normalized, with one component fewer and the same root |
| PosixPath.NormalizedEnd | common-prefix.py:27-30 | a normalized path is empty, the root, or does not end in the separator |

## Left out

- `print` and `sys.exit` (common-prefix.py:10, 20, 30, 34) are console and process I/O. The printed line is `Ok(line)` and the exit status is `ExitStatus` of the outcome; the text of the usage message is not modelled.
- `os.path.isdir` (common-prefix.py:24) is a filesystem query. It is the parameter `isDir`, except that the empty path is never a directory, because `stat("")` fails.
- `os.path.sep` is fixed to `/` (POSIX), and only `str` paths are modelled, not `bytes`.
- The `ValueError` that `commonpath` raises for mixed absolute and relative paths is not caught by the source. It is the outcome `MixedPaths` with exit status 1, without modelling exception propagation or its traceback.
- `commonpath`'s empty-list `ValueError` cannot arise, because `main` calls it only with at least one path.
- The commented-out stderr lines (common-prefix.py:13, 15, 19, 29) are left out.
- `commonpath` is modelled by what it computes (the root, then the longest common prefix of the component lists, joined with `/`). The model does not follow its `min`/`max` implementation. The two agree because the common prefix of the smallest and largest list under list order equals the common prefix of all of them.
- `Dedup` lists the set in first-occurrence order, while Python's `set` order depends on string hashing. `OrderAndDuplicatesIrrelevant` shows the outcome does not depend on the listing.

## Findings

| source | as written | input that shows it | evidently intended | confidence | as-written member | corrected member |
|---|---|---|---|---|---|---|
| common-prefix.py:24-30 | relative arguments print the root `/` whenever the directory to print comes out empty. That happens when `commonpath` is the empty path (names without a common component, or `.` together with `./`): the empty path is no directory and its `dirname` is `""` again. It also happens when `commonpath` is one relative component that is not a directory (a single file name, or `a a/b` with `a` a file): its `dirname` is `""`. Either way `"" + "/"` is the root. This is the escape from the working directory that the comment at line 18 says the solo-`.` case exists to prevent. Fed back as the only argument, the line `/` then prints `//`, so the output is not stable on a second run | `common-prefix.py foo.c` with `foo.c` a file; `common-prefix.py foo.c bar.c`; `common-prefix.py . ./` | `./` | not executed | CommonPrefixTool.RelativeFileEscapesToRoot, CommonPrefixTool.EmptyCommonEscapesToRoot, CommonPrefixTool.SiblingFilesEscapeToRoot, CommonPrefixTool.CurDirSpellingsEscapeToRoot, CommonPrefixTool.RootLineRerunDoubles | CommonPrefixTool.CommonPrefixIntended (IntendedFixesFindings, IntendedLineIsWellFormed, RootLineRerunDoubles) |
| common-prefix.py:30 | when the directory is the root `/`, appending a separator prints `//`. Every other line, like the `src/` of the header example at line 3, is a directory followed by one separator | `common-prefix.py /vmlinuz` with `/vmlinuz` a file; `common-prefix.py /usr/a /etc/b` | `/` | not executed | CommonPrefixTool.RootFileDoublesSeparator, CommonPrefixTool.RootCommonDoublesSeparator | CommonPrefixTool.CommonPrefixIntended (IntendedFixesFindings, IntendedLineIsWellFormed) |
