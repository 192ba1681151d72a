/**
 * The `common-prefix.py` command: print the common parent directory of its path
 * arguments, followed by a separator. The printed line is the `line` of an `Ok`
 * outcome; the exit status is `ExitStatus` of the outcome.
 */
module CommonPrefixTool {
  import opened ComponentPrefix
  import opened PosixPath

  /**
   * How one run ends: the usage message (status 1), the uncaught ValueError that
   * `commonpath` raises for a mix of absolute and relative paths, or one printed line.
   */
  datatype Outcome = UsageError | MixedPaths | Ok(line: string)

  /** The process exit status: 0 only when a prefix line was printed. */
  function ExitStatus(o: Outcome): (s: int)
    ensures s == 0 <==> o.Ok?
    ensures o.UsageError? ==> s == 1
    ensures o.MixedPaths? ==> s == 1
  {
    match o
    case Ok(_) => 0
    case _ => 1
  }

  /** `argv[1:]`: the path arguments after the program name. */
  function PathArgs(argv: seq<string>): (r: seq<string>)
    ensures r == [] <==> |argv| <= 1
    ensures |argv| > 1 ==> argv == argv[..1] + r
  {
    if |argv| <= 1 then [] else argv[1..]
  }

  /** The set of path arguments, which is all the result depends on. */
  ghost function ArgSet(argv: seq<string>): set<string> {
    set p | p in PathArgs(argv)
  }

  /**
   * `list(set(xs))`: each element once. This listing keeps first occurrences;
   * any other order gives the same result (see `OrderAndDuplicatesIrrelevant`).
   */
  function Dedup(xs: seq<string>): (r: seq<string>)
    ensures forall p :: p in r <==> p in xs
    ensures forall i, j :: 0 <= i < j < |r| ==> r[i] != r[j]
  {
    if |xs| == 0 then []
    else
      var r := Dedup(xs[..|xs| - 1]);
      if xs[|xs| - 1] in r then r else r + [xs[|xs| - 1]]
  }

  /**
   * `len(dirnames) == 1 and dirnames[0] in [".", "./"]`: a single relative path
   * without a component, which `commonpath` would reduce to the empty path.
   */
  predicate SoloCurDir(dirnames: seq<string>)
    ensures SoloCurDir(dirnames) ==>
      |dirnames| == 1 && Components(dirnames[0]) == [] && !IsAbs(dirnames[0])
  {
    CurDirHasNoComponents();
    |dirnames| == 1 && dirnames[0] in [CurDir, CurDir + [Sep]]
  }

  lemma CurDirHasNoComponents()
    ensures Components(CurDir) == [] && Components(CurDir + [Sep]) == []
  {
    SplitNoSep(CurDir);
    SplitConcat(CurDir, "");
    assert CurDir + [Sep] + "" == CurDir + [Sep];
    assert Split("") == [""];
    assert Keep([CurDir]) == [] by { assert [CurDir][1..] == []; }
    assert Keep([CurDir, ""]) == [] by { assert [CurDir, ""][1..] == [""]; }
  }

  /**
   * `os.path.isdir(p)`, with the file system abstracted as `isDir`. The empty
   * path is never a directory: `stat("")` fails.
   */
  predicate IsDirectory(isDir: string -> bool, p: string)
    ensures p == "" ==> !IsDirectory(isDir, p)
  {
    p != "" && isDir(p)
  }

  /**
   * `common`, or its `dirname` when it is not a directory (a single file
   * argument). Either way a prefix of `common`, and empty exactly when
   * `common` is not a directory and has no separator to cut at.
   */
  function DirectoryOf(common: string, isDir: string -> bool): (r: string)
    ensures r <= common
    ensures r == "" <==> !IsDirectory(isDir, common) && Sep !in common
  {
    if IsDirectory(isDir, common) then common else Dirname(common)
  }

  /** True when `s` ends in the separator. */
  predicate EndsWithSep(s: string) {
    |s| > 0 && s[|s| - 1] == Sep
  }

  /** `main(argv)`: the whole command as written. */
  function CommonPrefix(argv: seq<string>, isDir: string -> bool): (r: Outcome)
    ensures r.UsageError? <==> |argv| <= 1
    ensures r.Ok? ==> EndsWithSep(r.line)
  {
    if |argv| <= 1 then UsageError else PrefixOfDistinct(Dedup(argv[1..]), isDir)
  }

  /** Lines 17-31 of `main`, on the deduplicated list of paths. */
  function PrefixOfDistinct(dirnames: seq<string>, isDir: string -> bool): (r: Outcome)
    requires |dirnames| > 0
    ensures r.Ok? ==> EndsWithSep(r.line)
    ensures r.MixedPaths? <==> !SoloCurDir(dirnames) && !SameRoot(dirnames)
  {
    if SoloCurDir(dirnames) then Ok(CurDir + [Sep])
    else
      match CommonPath(dirnames)
      case MixedAbsRel => MixedPaths
      case Common(common) => Ok(DirectoryOf(common, isDir) + [Sep])
  }

  /** With no path argument the run is a usage error with exit status 1. */
  lemma NoPathsIsUsageError(argv: seq<string>, isDir: string -> bool)
    ensures CommonPrefix(argv, isDir).UsageError? <==> PathArgs(argv) == []
    ensures PathArgs(argv) == [] ==> ExitStatus(CommonPrefix(argv, isDir)) == 1
    ensures PathArgs(argv) != [] ==> ExitStatus(CommonPrefix(argv, isDir)) == 0 || CommonPrefix(argv, isDir).MixedPaths?
  {
  }

  /** A distinct listing is a solo `.` exactly when its set of elements is `{"."}` or `{"./"}`. */
  lemma SoloCurDirOfSet(d: seq<string>)
    requires forall i, j :: 0 <= i < j < |d| ==> d[i] != d[j]
    ensures SoloCurDir(d) <==> (set p | p in d) == {CurDir} || (set p | p in d) == {CurDir + [Sep]}
  {
    var s := set p | p in d;
    if s == {CurDir} || s == {CurDir + [Sep]} {
      assert d[0] in s;
      if |d| > 1 {
        NotSingletonSet(d, CurDir);
        NotSingletonSet(d, CurDir + [Sep]);
        assert false;
      }
      assert d[0] == CurDir || d[0] == CurDir + [Sep];
    }
    if SoloCurDir(d) {
      assert forall p :: p in s <==> p == d[0] by {
        forall p ensures p in s <==> p == d[0] {
          assert p in d <==> p == d[0];
        }
      }
      assert s == {d[0]};
      assert d[0] == CurDir || d[0] == CurDir + [Sep];
    }
  }

  /** A list of two or more distinct elements has no one-element set of elements. */
  lemma NotSingletonSet(d: seq<string>, x: string)
    requires |d| > 1
    requires forall i, j :: 0 <= i < j < |d| ==> d[i] != d[j]
    ensures (set p | p in d) != {x}
  {
    var s := set p | p in d;
    assert d[0] in s && d[1] in s && d[0] != d[1];
  }

  /**
   * The result depends only on the set of path arguments: permuting or
   * repeating them, or renaming the program, changes nothing.
   */
  lemma OrderAndDuplicatesIrrelevant(a1: seq<string>, a2: seq<string>, isDir: string -> bool)
    requires ArgSet(a1) == ArgSet(a2)
    ensures CommonPrefix(a1, isDir) == CommonPrefix(a2, isDir)
  {
    var p1, p2 := PathArgs(a1), PathArgs(a2);
    assert forall p :: p in p1 <==> p in p2 by {
      forall p ensures p in p1 <==> p in p2 {
        assert p in p1 <==> p in ArgSet(a1);
        assert p in p2 <==> p in ArgSet(a2);
      }
    }
    assert p1 == [] <==> p2 == [] by {
      assert p1 != [] ==> p1[0] in p2;
      assert p2 != [] ==> p2[0] in p1;
    }
    if |a1| > 1 && |a2| > 1 {
      var d1, d2 := Dedup(p1), Dedup(p2);
      assert (set p | p in d1) == (set p | p in d2);
      SoloCurDirOfSet(d1);
      SoloCurDirOfSet(d2);
      CommonPathOfSameElements(d1, d2);
    }
  }

  /** Deduplicating before `commonpath` changes nothing: it sees the arguments themselves. */
  lemma CommonPathOfDedup(argv: seq<string>)
    requires |argv| > 1
    ensures CommonPath(Dedup(argv[1..])) == CommonPath(argv[1..])
  {
    assert argv[1] in Dedup(argv[1..]);
    CommonPathOfSameElements(Dedup(argv[1..]), argv[1..]);
  }

  /** A lone `.` or `./` (however often repeated) prints `./` without consulting `isDir`. */
  lemma SoloCurDirPrintsCurDir(argv: seq<string>, isDir: string -> bool)
    requires ArgSet(argv) == {"."} || ArgSet(argv) == {"./"}
    ensures CommonPrefix(argv, isDir) == Ok("./")
    ensures ExitStatus(CommonPrefix(argv, isDir)) == 0
  {
    var s := ArgSet(argv);
    assert CurDir == "." && CurDir + [Sep] == "./";
    assert "." in s || "./" in s;
    assert PathArgs(argv) != [];
    var d := Dedup(argv[1..]);
    assert (set p | p in d) == s;
    SoloCurDirOfSet(d);
    assert SoloCurDir(d);
    assert PrefixOfDistinct(d, isDir) == Ok(CurDir + [Sep]);
  }

  /**
   * Past the usage check and the solo `.` case, the printed directory is the
   * `commonpath` of the arguments when that is a directory, and otherwise its
   * `dirname`, which has exactly one component fewer (none fewer when there
   * is no component to drop) and the same root.
   */
  lemma FileFallback(argv: seq<string>, isDir: string -> bool)
    requires |argv| > 1 && SameRoot(argv[1..])
    requires !SoloCurDir(Dedup(argv[1..]))
    ensures var c := CommonPath(argv[1..]).path;
      && (IsDirectory(isDir, c) ==> CommonPrefix(argv, isDir) == Ok(c + "/"))
      && (!IsDirectory(isDir, c) ==> CommonPrefix(argv, isDir) == Ok(Dirname(c) + "/"))
      && Components(Dirname(c)) == DropLast(Components(c))
      && IsAbs(Dirname(c)) == IsAbs(c)
  {
    CommonPathOfDedup(argv);
    CommonPathNormalized(argv[1..]);
    DirnameOfNormalized(CommonPath(argv[1..]).path);
  }

  /** The example in the script's header: `src/a src/foo/b src/bar/c` prints `src/`. */
  lemma DocumentedExample(prog: string, isDir: string -> bool)
    requires isDir("src")
    ensures CommonPrefix([prog, "src/a", "src/foo/b", "src/bar/c"], isDir) == Ok("src/")
  {
    assert ValidComponent("src") && ValidComponent("a") && ValidComponent("foo");
    assert ValidComponent("b") && ValidComponent("bar") && ValidComponent("c");
    var argv := [prog, "src/a", "src/foo/b", "src/bar/c"];
    assert "src" + "/" + "a" == "src/a";
    assert "src" + "/" + "foo" + "/" + "b" == "src/foo/b";
    assert "src" + "/" + "bar" + "/" + "c" == "src/bar/c";
    assert "src" + "/" == "src/";
    assert argv == [prog, "src" + "/" + "a", "src" + "/" + "foo" + "/" + "b", "src" + "/" + "bar" + "/" + "c"];
    SiblingsShareParent(prog, "src", "a", "foo", "b", "bar", "c", isDir);
  }

  /**
   * The shape of the documented example: `s/a`, `s/f/b` and `s/r/c`, with `f`
   * and `r` different, print `s/` when `s` is a directory.
   */
  lemma SiblingsShareParent(prog: string, s: string, a: string, f: string, b: string,
                            r: string, c: string, isDir: string -> bool)
    requires ValidComponent(s) && ValidComponent(a) && ValidComponent(f)
    requires ValidComponent(b) && ValidComponent(r) && ValidComponent(c)
    requires f != r && isDir(s)
    ensures CommonPrefix([prog, s + "/" + a, s + "/" + f + "/" + b, s + "/" + r + "/" + c], isDir)
      == Ok(s + "/")
  {
    var p1, p2, p3 := s + "/" + a, s + "/" + f + "/" + b, s + "/" + r + "/" + c;
    var argv := [prog, p1, p2, p3];
    SiblingsCommonPath(s, a, f, b, r, c);
    assert argv[1..] == [p1, p2, p3];
    CommonDirectoryPrinted(argv, s, isDir);
  }

  /**
   * With two different path arguments whose `commonpath` is a directory, that
   * directory is printed.
   */
  lemma CommonDirectoryPrinted(argv: seq<string>, c: string, isDir: string -> bool)
    requires |argv| > 2 && argv[1] != argv[2]
    requires CommonPath(argv[1..]) == Common(c) && IsDirectory(isDir, c)
    ensures CommonPrefix(argv, isDir) == Ok(c + "/")
  {
    DedupOfTwoDistinct(argv[1..]);
    PastSoloCase(argv, c, isDir);
  }

  /**
   * Past the usage check and the solo-`.` case, the line is `DirectoryOf` the
   * `commonpath` of the arguments, plus a separator.
   */
  lemma PastSoloCase(argv: seq<string>, c: string, isDir: string -> bool)
    requires |argv| > 1 && !SoloCurDir(Dedup(argv[1..]))
    requires CommonPath(argv[1..]) == Common(c)
    ensures CommonPrefix(argv, isDir) == Ok(DirectoryOf(c, isDir) + "/")
  {
    CommonPathOfDedup(argv);
  }

  /** Two different paths leave more than one after deduplication, so the solo-`.` case is out. */
  lemma DedupOfTwoDistinct(xs: seq<string>)
    requires |xs| > 1 && xs[0] != xs[1]
    ensures |Dedup(xs)| > 1 && !SoloCurDir(Dedup(xs))
  {
    var d := Dedup(xs);
    assert xs[0] in d && xs[1] in d;
  }

  lemma SiblingsCommonPath(s: string, a: string, f: string, b: string, r: string, c: string)
    requires ValidComponent(s) && ValidComponent(a) && ValidComponent(f)
    requires ValidComponent(b) && ValidComponent(r) && ValidComponent(c)
    requires f != r
    ensures s + "/" + a != s + "/" + f + "/" + b
    ensures CommonPath([s + "/" + a, s + "/" + f + "/" + b, s + "/" + r + "/" + c]) == Common(s)
  {
    var p1, p2, p3 := s + "/" + a, s + "/" + f + "/" + b, s + "/" + r + "/" + c;
    var paths := [p1, p2, p3];
    RelativeComponents2(s, a);
    RelativeComponents3(s, f, b);
    RelativeComponents3(s, r, c);
    assert ComponentLists(paths) == [[s, a], [s, f, b], [s, r, c]];
    SiblingsLongestCommonPrefix(s, a, f, b, r, c);
    assert s[0] != Sep by { assert s[0] in s; }
    assert p1[0] == s[0] && p2[0] == s[0] && p3[0] == s[0];
    RelativeSameRoot(p1, p2, p3);
    assert Join(false, [s]) == s;
  }

  lemma RelativeSameRoot(p1: string, p2: string, p3: string)
    requires !IsAbs(p1) && !IsAbs(p2) && !IsAbs(p3)
    ensures SameRoot([p1, p2, p3])
  {
    var paths := [p1, p2, p3];
    forall i | 0 <= i < |paths| ensures IsAbs(paths[i]) == IsAbs(paths[0]) {
      assert i == 0 || i == 1 || i == 2;
    }
  }

  lemma SiblingsLongestCommonPrefix<T>(s: T, a: T, f: T, b: T, r: T, c: T)
    requires f != r
    ensures LongestCommonPrefix([[s, a], [s, f, b], [s, r, c]]) == [s]
  {
    var lists := [[s, a], [s, f, b], [s, r, c]];
    assert [s, f, b][1..] == [f, b] && [s, r, c][1..] == [r, c];
    assert CommonPrefix2([s, f, b], [s, r, c]) == [s];
    assert [s, a][1..] == [a] && [s][1..] == [];
    assert CommonPrefix2([s, a], [s]) == [s];
    assert lists[1..] == [[s, f, b], [s, r, c]];
    assert lists[1..][1..] == [[s, r, c]];
    assert LongestCommonPrefix(lists[1..][1..]) == [s, r, c];
    assert LongestCommonPrefix(lists[1..]) == [s];
  }

  lemma RelativeComponents2(a: string, b: string)
    requires ValidComponent(a) && ValidComponent(b)
    ensures Components(a + "/" + b) == [a, b]
  {
    ComponentsOfJoin(false, [a, b]);
    assert [a, b][1..] == [b];
    assert JoinSep([a, b]) == a + "/" + JoinSep([b]);
    assert Join(false, [a, b]) == a + "/" + b;
  }

  lemma RelativeComponents3(a: string, b: string, c: string)
    requires ValidComponent(a) && ValidComponent(b) && ValidComponent(c)
    ensures Components(a + "/" + b + "/" + c) == [a, b, c]
  {
    ComponentsOfJoin(false, [a, b, c]);
    assert [a, b, c][1..] == [b, c];
    assert JoinSep([b, c]) == b + "/" + c;
    assert Join(false, [a, b, c]) == a + "/" + (b + "/" + c);
    assert a + "/" + (b + "/" + c) == a + "/" + b + "/" + c;
  }

  /** `commonpath` of one path is that path normalized. */
  lemma CommonPathOfOne(p: string)
    ensures CommonPath([p]) == Common(Join(IsAbs(p), Components(p)))
  {
    assert SameRoot([p]);
    assert ComponentLists([p]) == [Components(p)];
  }

  /** With one path argument other than `.` and `./`, the run goes through `commonpath` of that path. */
  lemma SingleArgument(prog: string, p: string, isDir: string -> bool)
    requires p != "." && p != "./"
    ensures CommonPrefix([prog, p], isDir) == Ok(DirectoryOf(Join(IsAbs(p), Components(p)), isDir) + "/")
  {
    var argv := [prog, p];
    assert argv[1..] == [p];
    assert Dedup([p]) == [p] by {
      assert [p][..0] == [];
    }
    assert CurDir == "." && CurDir + [Sep] == "./";
    assert !SoloCurDir([p]);
    CommonPathOfOne(p);
  }

  /**
   * A single argument naming a file prints its containing directory: the
   * argument's root and components without the last one.
   */
  lemma SingleFileGivesContainingDirectory(prog: string, p: string, isDir: string -> bool)
    requires p != "." && p != "./"
    requires !IsDirectory(isDir, Join(IsAbs(p), Components(p)))
    ensures CommonPrefix([prog, p], isDir) == Ok(Join(IsAbs(p), DropLast(Components(p))) + "/")
  {
    SingleArgument(prog, p, isDir);
    DirnameOfJoin(IsAbs(p), Components(p));
  }

  /** A single argument naming a directory prints its normalized form. */
  lemma SingleDirectoryIsKept(prog: string, p: string, isDir: string -> bool)
    requires p != "." && p != "./"
    requires IsDirectory(isDir, Join(IsAbs(p), Components(p)))
    ensures CommonPrefix([prog, p], isDir) == Ok(Join(IsAbs(p), Components(p)) + "/")
  {
    SingleArgument(prog, p, isDir);
  }

  /**
   * Feeding a printed line other than `/` back in as the only argument prints
   * it again, when it is `./` or its part before the last separator is a
   * directory. The line `/` is the exception: see `RootLineRerunDoubles`.
   */
  lemma RerunIsStable(argv: seq<string>, isDir: string -> bool, prog: string, o: string)
    requires CommonPrefix(argv, isDir) == Ok(o)
    requires o == "./" || IsDirectory(isDir, o[..|o| - 1])
    ensures CommonPrefix([prog, o], isDir) == Ok(o)
  {
    if o == "./" {
      assert Dedup([o]) == [o] by { assert [o][..0] == []; }
      assert CurDir + [Sep] == "./";
      assert [prog, o][1..] == [o];
    } else {
      PrintedLineShape(argv, isDir);
      var dir := o[..|o| - 1];
      assert o == dir + "/";
      RerunOfDirectory(prog, dir, isDir);
    }
  }

  lemma RerunOfDirectory(prog: string, dir: string, isDir: string -> bool)
    requires IsNormalized(dir) && IsDirectory(isDir, dir) && dir + "/" != "./"
    ensures CommonPrefix([prog, dir + "/"], isDir) == Ok(dir + "/")
  {
    WithTrailingSep(dir);
    SingleArgument(prog, dir + "/", isDir);
  }

  /** A trailing separator changes neither the root nor the components of a non-empty path. */
  lemma WithTrailingSep(p: string)
    requires p != ""
    ensures Components(p + "/") == Components(p)
    ensures IsAbs(p + "/") == IsAbs(p)
  {
    SplitConcat(p, "");
    assert p + [Sep] + "" == p + "/";
    KeepConcat(Split(p), [""]);
    assert Keep([""]) == [] by { assert [""][1..] == []; }
  }

  /**
   * Every printed line is `./` or a normalized directory followed by one
   * separator, and that directory is absolute exactly when the arguments are.
   */
  lemma PrintedLineShape(argv: seq<string>, isDir: string -> bool)
    requires CommonPrefix(argv, isDir).Ok?
    ensures var o := CommonPrefix(argv, isDir).line;
      o == "./" || (IsNormalized(o[..|o| - 1]) && IsAbs(o[..|o| - 1]) == IsAbs(argv[1]))
  {
    var o := CommonPrefix(argv, isDir).line;
    var dirnames := Dedup(argv[1..]);
    assert o == PrefixOfDistinct(dirnames, isDir).line;
    if SoloCurDir(dirnames) {
      assert CurDir + [Sep] == "./";
    } else {
      assert SameRoot(dirnames);
      var c := CommonPath(dirnames).path;
      var dir := DirectoryOf(c, isDir);
      assert o == dir + [Sep];
      assert o[..|o| - 1] == dir;
      CommonPathNormalized(dirnames);
      DirectoryOfNormalized(c, isDir);
      assert argv[1] in dirnames;
    }
  }

  /** Whichever branch is taken, the directory printed is normalized and keeps the root. */
  lemma DirectoryOfNormalized(c: string, isDir: string -> bool)
    requires IsNormalized(c)
    ensures IsNormalized(DirectoryOf(c, isDir)) && IsAbs(DirectoryOf(c, isDir)) == IsAbs(c)
  {
    DirnameOfNormalized(c);
  }

  /**
   * As written: one relative file name that is not a directory prints `/`.
   * `commonpath` gives the file name and its `dirname` is empty, so the line
   * is the root: the escape from the working directory that the solo-`.`
   * case exists to prevent.
   */
  lemma RelativeFileEscapesToRoot(prog: string, name: string, isDir: string -> bool)
    requires ValidComponent(name) && !isDir(name)
    ensures CommonPrefix([prog, name], isDir) == Ok("/")
  {
    ComponentsOfJoin(false, [name]);
    assert Join(false, [name]) == name;
    assert name != "./" by { assert Sep in "./"; }
    SingleFileGivesContainingDirectory(prog, name, isDir);
  }

  /**
   * As written: past the solo-`.` case, arguments whose `commonpath` is the
   * empty path print `/`, whatever `isDir` says, since the empty path is no
   * directory and its `dirname` is empty again.
   */
  lemma EmptyCommonEscapesToRoot(argv: seq<string>, isDir: string -> bool)
    requires |argv| > 1 && !SoloCurDir(Dedup(argv[1..]))
    requires CommonPath(argv[1..]) == Common("")
    ensures CommonPrefix(argv, isDir) == Ok("/")
  {
    PastSoloCase(argv, "", isDir);
    assert DirectoryOf("", isDir) == "";
  }

  /** As written: two different relative names of one component each print `/`. */
  lemma SiblingFilesEscapeToRoot(prog: string, x: string, y: string, isDir: string -> bool)
    requires ValidComponent(x) && ValidComponent(y) && x != y
    ensures CommonPrefix([prog, x, y], isDir) == Ok("/")
  {
    var argv := [prog, x, y];
    DisjointRelativeCommonPath(x, y);
    assert argv[1..] == [x, y];
    DedupOfTwoDistinct(argv[1..]);
    EmptyCommonEscapesToRoot(argv, isDir);
  }

  lemma DisjointRelativeCommonPath(x: string, y: string)
    requires ValidComponent(x) && ValidComponent(y) && x != y
    ensures CommonPath([x, y]) == Common("")
  {
    ComponentsOfJoin(false, [x]);
    ComponentsOfJoin(false, [y]);
    assert Join(false, [x]) == x && Join(false, [y]) == y;
    assert ComponentLists([x, y]) == [[x], [y]];
    assert LongestCommonPrefix([[x], [y]]) == [] by {
      assert [[x], [y]][1..] == [[y]];
    }
    assert !IsAbs(x) && !IsAbs(y);
    assert SameRoot([x, y]);
  }

  /**
   * As written: `.` and `./` together are two distinct arguments, so the
   * solo-`.` case does not apply and `/` is printed.
   */
  lemma CurDirSpellingsEscapeToRoot(prog: string, isDir: string -> bool)
    ensures CommonPrefix([prog, ".", "./"], isDir) == Ok("/")
  {
    var argv := [prog, CurDir, CurDir + [Sep]];
    assert CurDir == "." && CurDir + [Sep] == "./";
    CurDirHasNoComponents();
    var paths := [CurDir, CurDir + [Sep]];
    var none: seq<seq<string>> := [[], []];
    assert ComponentLists(paths) == none;
    assert LongestCommonPrefix(none) == [] by {
      assert none[1..] == [[]];
    }
    assert SameRoot(paths);
    assert argv[1..] == paths;
    DedupOfTwoDistinct(argv[1..]);
    EmptyCommonEscapesToRoot(argv, isDir);
  }

  /**
   * As written: the line `/`, fed back as the only argument, prints `//`
   * (the root is a directory), so a printed `/` is not stable on a second run.
   */
  lemma RootLineRerunDoubles(prog: string, isDir: string -> bool)
    requires isDir("/")
    ensures CommonPrefix([prog, "/"], isDir) == Ok("//")
    ensures CommonPrefixIntended([prog, "/"], isDir) == Ok("/")
  {
    ComponentsOfJoin(true, []);
    assert Join(true, []) == "/";
    assert "/" != "." && "/" != "./";
    SingleDirectoryIsKept(prog, "/", isDir);
    assert "//"[..1] == "/";
  }

  /** As written: one absolute file just under the root prints `//`. */
  lemma RootFileDoublesSeparator(prog: string, name: string, isDir: string -> bool)
    requires ValidComponent(name) && !isDir([Sep] + name)
    ensures CommonPrefix([prog, [Sep] + name], isDir) == Ok("//")
  {
    ComponentsOfJoin(true, [name]);
    assert Join(true, [name]) == [Sep] + name;
    SingleFileGivesContainingDirectory(prog, [Sep] + name, isDir);
  }

  /**
   * As written: two absolute paths that share only the root print `//`, the
   * root being a directory.
   */
  lemma RootCommonDoublesSeparator(prog: string, x: string, y: string, isDir: string -> bool)
    requires ValidComponent(x) && ValidComponent(y) && x != y && isDir([Sep])
    ensures CommonPrefix([prog, [Sep] + x, [Sep] + y], isDir) == Ok("//")
  {
    var argv := [prog, [Sep] + x, [Sep] + y];
    DisjointAbsoluteCommonPath(x, y);
    assert argv[1..] == [[Sep] + x, [Sep] + y];
    CommonDirectoryPrinted(argv, [Sep], isDir);
  }

  lemma DisjointAbsoluteCommonPath(x: string, y: string)
    requires ValidComponent(x) && ValidComponent(y) && x != y
    ensures [Sep] + x != [Sep] + y
    ensures CommonPath([[Sep] + x, [Sep] + y]) == Common([Sep])
  {
    var p1, p2 := [Sep] + x, [Sep] + y;
    ComponentsOfJoin(true, [x]);
    ComponentsOfJoin(true, [y]);
    assert Join(true, [x]) == p1 && Join(true, [y]) == p2;
    var paths := [p1, p2];
    assert ComponentLists(paths) == [[x], [y]];
    assert LongestCommonPrefix([[x], [y]]) == [] by {
      assert [[x], [y]][1..] == [[y]];
    }
    assert SameRoot(paths);
  }

  /**
   * The directory as a line ending in exactly one separator: `./` for the
   * working directory (the empty path), the root `/` as it is.
   */
  function AsDirectoryLine(dir: string): (line: string)
    ensures EndsWithSep(line)
  {
    if dir == "" then CurDir + [Sep]
    else if dir[|dir| - 1] == Sep then dir
    else dir + [Sep]
  }

  /**
   * `main` as evidently intended: the printed directory is never the root when
   * the arguments are relative, and never ends in two separators.
   */
  function CommonPrefixIntended(argv: seq<string>, isDir: string -> bool): (r: Outcome)
    ensures r.UsageError? <==> |argv| <= 1
    ensures r.MixedPaths? <==> CommonPrefix(argv, isDir).MixedPaths?
    ensures r.Ok? ==> EndsWithSep(r.line)
  {
    match CommonPrefix(argv, isDir)
    case Ok(line) => Ok(AsDirectoryLine(line[..|line| - 1]))
    case other => other
  }

  /**
   * The corrected command prints a line ending in exactly one separator, and a
   * relative line for relative arguments.
   */
  lemma IntendedLineIsWellFormed(argv: seq<string>, isDir: string -> bool)
    requires CommonPrefixIntended(argv, isDir).Ok?
    ensures var o := CommonPrefixIntended(argv, isDir).line;
      EndsWithSep(o) && (|o| == 1 || o[|o| - 2] != Sep)
    ensures (forall i :: 1 <= i < |argv| ==> !IsAbs(argv[i])) ==>
      !IsAbs(CommonPrefixIntended(argv, isDir).line)
  {
    PrintedLineShape(argv, isDir);
    var line := CommonPrefix(argv, isDir).line;
    var dir := line[..|line| - 1];
    assert CommonPrefixIntended(argv, isDir).line == AsDirectoryLine(dir);
    if line == "./" {
      assert dir == "." && dir[|dir| - 1] != Sep;
    } else {
      NormalizedEnd(dir);
    }
    AsDirectoryLineShape(dir);
  }

  /**
   * For a directory that is empty, the root, or free of a trailing separator, the corrected
   * line ends in exactly one separator and is absolute exactly when the directory is.
   */
  lemma AsDirectoryLineShape(dir: string)
    requires dir == "" || dir == [Sep] || dir[|dir| - 1] != Sep
    ensures var line := AsDirectoryLine(dir);
      (|line| == 1 || line[|line| - 2] != Sep) && (IsAbs(line) <==> IsAbs(dir))
  {
    assert CurDir + [Sep] == "./";
  }

  /** Wherever the command as written prints neither `/` nor `//`, the corrected one agrees. */
  lemma IntendedAgreesElsewhere(argv: seq<string>, isDir: string -> bool)
    requires CommonPrefix(argv, isDir) != Ok("/") && CommonPrefix(argv, isDir) != Ok("//")
    ensures CommonPrefixIntended(argv, isDir) == CommonPrefix(argv, isDir)
  {
    if CommonPrefix(argv, isDir).Ok? {
      PrintedLineShape(argv, isDir);
      var line := CommonPrefix(argv, isDir).line;
      var dir := line[..|line| - 1];
      assert line == dir + [Sep];
      assert CurDir + [Sep] == "./";
      if line != "./" {
        NormalizedEnd(dir);
      }
    }
  }

  /**
   * Where the command as written prints `/` (a relative file) the corrected one
   * prints `./`, and where it prints `//` the corrected one prints `/`.
   */
  lemma IntendedFixesFindings(argv: seq<string>, isDir: string -> bool)
    ensures CommonPrefix(argv, isDir) == Ok("/") ==> CommonPrefixIntended(argv, isDir) == Ok("./")
    ensures CommonPrefix(argv, isDir) == Ok("//") ==> CommonPrefixIntended(argv, isDir) == Ok("/")
  {
    assert CurDir + [Sep] == "./";
    assert "/"[..0] == "" && "//"[..1] == [Sep];
  }
}
