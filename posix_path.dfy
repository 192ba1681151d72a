/**
 * The POSIX path operations the tool relies on, with the separator fixed to '/':
 * `str.split('/')`, `'/'.join`, `os.path.commonpath` and `os.path.dirname`.
 */
module PosixPath {
  import opened ComponentPrefix

  const Sep: char := '/'
  const CurDir: string := "."

  /** `'/'.join(cs)`: the components with one separator between neighbours. */
  function JoinSep(cs: seq<string>): (r: string)
    ensures cs == [] ==> r == ""
    ensures |cs| > 1 ==> cs[0] + [Sep] <= r
  {
    if |cs| == 0 then ""
    else if |cs| == 1 then cs[0]
    else cs[0] + [Sep] + JoinSep(cs[1..])
  }

  /** `p.split('/')`: the pieces between separators, empty ones included. */
  function Split(p: string): (r: seq<string>)
    ensures |r| > 0
  {
    if |p| == 0 then [""]
    else if p[0] == Sep then [""] + Split(p[1..])
    else
      var rest := Split(p[1..]);
      [[p[0]] + rest[0]] + rest[1..]
  }

  /** No piece of a split holds a separator. */
  lemma {:induction false} SplitPiecesHaveNoSep(p: string)
    ensures forall c :: c in Split(p) ==> Sep !in c
  {
    if |p| > 0 {
      SplitPiecesHaveNoSep(p[1..]);
      var rest := Split(p[1..]);
      if p[0] != Sep {
        assert rest[0] in rest;
        assert forall c :: c in rest[1..] ==> c in rest;
        assert Sep !in [p[0]] + rest[0];
      }
    }
  }

  /** Joining the pieces of `p` gives `p` back. */
  lemma {:induction false} JoinSepOfSplit(p: string)
    ensures JoinSep(Split(p)) == p
  {
    if |p| > 0 {
      JoinSepOfSplit(p[1..]);
      var rest := Split(p[1..]);
      if p[0] == Sep {
        assert Split(p) == [""] + rest;
        assert ([""] + rest)[1..] == rest;
        assert JoinSep(Split(p)) == "" + [Sep] + JoinSep(rest);
      } else if |rest| == 1 {
        assert Split(p) == [[p[0]] + rest[0]];
        assert [p[0]] + p[1..] == p;
      } else {
        var r := Split(p);
        assert r == [[p[0]] + rest[0]] + rest[1..];
        assert r[1..] == rest[1..];
        assert JoinSep(rest) == rest[0] + [Sep] + JoinSep(rest[1..]);
        assert JoinSep(r) == [p[0]] + rest[0] + [Sep] + JoinSep(rest[1..]);
        assert [p[0]] + p[1..] == p;
      }
    }
  }

  /** A component that survives normalization: not empty, not `.`, no separator. */
  predicate ValidComponent(c: string) {
    c != "" && c != CurDir && Sep !in c
  }

  /** The filter `[c for c in s if c and c != curdir]`. */
  function Keep(cs: seq<string>): (r: seq<string>)
    ensures forall c :: c in r <==> c in cs && c != "" && c != CurDir
    ensures (forall c :: c in cs ==> ValidComponent(c)) ==> r == cs
  {
    if |cs| == 0 then []
    else if cs[0] == "" || cs[0] == CurDir then assert cs[0] in cs; Keep(cs[1..])
    else [cs[0]] + Keep(cs[1..])
  }

  /** The filter keeps order: filtering a concatenation filters each part in turn. */
  lemma {:induction false} KeepConcat(a: seq<string>, b: seq<string>)
    ensures Keep(a + b) == Keep(a) + Keep(b)
  {
    if a != [] {
      assert (a + b)[0] == a[0];
      assert (a + b)[1..] == a[1..] + b;
      KeepConcat(a[1..], b);
    } else {
      assert a + b == b;
    }
  }

  /** The components `commonpath` compares: the pieces of `p` without empty and `.` ones. */
  function Components(p: string): (r: seq<string>)
    ensures forall c :: c in r ==> ValidComponent(c)
  {
    SplitPiecesHaveNoSep(p);
    Keep(Split(p))
  }

  /** `p[:1] == sep`. */
  predicate IsAbs(p: string) {
    |p| > 0 && p[0] == Sep
  }

  /** `prefix + sep.join(common)`: the normalized path with the given root and components. */
  function Join(abs: bool, cs: seq<string>): (r: string)
    ensures abs ==> IsAbs(r)
    ensures |r| == |JoinSep(cs)| + (if abs then 1 else 0)
  {
    (if abs then [Sep] else "") + JoinSep(cs)
  }

  /** `cs` without its last component, `[]` when there is none. */
  function DropLast(cs: seq<string>): (r: seq<string>)
    ensures r <= cs
    ensures |r| == if cs == [] then 0 else |cs| - 1
  {
    if cs == [] then [] else cs[..|cs| - 1]
  }

  lemma {:induction false} SplitNoSep(c: string)
    requires Sep !in c
    ensures Split(c) == [c]
  {
    if |c| > 0 {
      assert c[1..] == [] || c[1..][0] == c[1];
      SplitNoSep(c[1..]);
      assert [c[0]] + c[1..] == c;
    }
  }

  /** A separator between `x` and `y` is exactly where their pieces meet. */
  lemma {:induction false} SplitConcat(x: string, y: string)
    ensures Split(x + [Sep] + y) == Split(x) + Split(y)
  {
    if |x| == 0 {
      SplitCons(Sep, y);
      assert x + [Sep] + y == [Sep] + y;
    } else {
      var c, x' := x[0], x[1..];
      var u := x' + [Sep] + y;
      assert x == [c] + x';
      assert x + [Sep] + y == [c] + u;
      SplitConcat(x', y);
      SplitConsConcat(c, x', u, Split(y));
    }
  }

  /** One step of `SplitConcat`: putting a character in front of both sides. */
  lemma SplitConsConcat(c: char, x: string, u: string, tail: seq<string>)
    requires Split(u) == Split(x) + tail
    ensures Split([c] + u) == Split([c] + x) + tail
  {
    if c == Sep {
      SplitConsSep(x, u, tail);
    } else {
      SplitConsOther(c, x, u, tail);
    }
  }

  lemma SplitConsSep(x: string, u: string, tail: seq<string>)
    requires Split(u) == Split(x) + tail
    ensures Split([Sep] + u) == Split([Sep] + x) + tail
  {
    SplitCons(Sep, u);
    SplitCons(Sep, x);
    AppendAssoc([""], Split(x), tail);
  }

  lemma SplitConsOther(c: char, x: string, u: string, tail: seq<string>)
    requires c != Sep
    requires Split(u) == Split(x) + tail
    ensures Split([c] + u) == Split([c] + x) + tail
  {
    var sx := Split(x);
    SplitCons(c, u);
    SplitCons(c, x);
    ConsPieces(c, sx, tail);
  }

  /** Extending the first piece commutes with appending more pieces. */
  lemma ConsPieces(ch: char, a: seq<string>, b: seq<string>)
    requires |a| > 0
    ensures [[ch] + (a + b)[0]] + (a + b)[1..] == [[ch] + a[0]] + a[1..] + b
  {
    assert (a + b)[0] == a[0];
    assert (a + b)[1..] == a[1..] + b;
  }

  /** How `Split` treats the first character. */
  lemma SplitCons(ch: char, t: string)
    ensures Split([ch] + t) == if ch == Sep then [""] + Split(t)
                                else [[ch] + Split(t)[0]] + Split(t)[1..]
  {
    assert ([ch] + t)[0] == ch && ([ch] + t)[1..] == t;
  }

  /** Joining components that hold no separator and splitting again gives them back. */
  lemma {:induction false} SplitJoinSep(cs: seq<string>)
    requires |cs| > 0
    requires forall c :: c in cs ==> Sep !in c
    ensures Split(JoinSep(cs)) == cs
  {
    if |cs| == 1 {
      SplitNoSep(cs[0]);
    } else {
      SplitConcat(cs[0], JoinSep(cs[1..]));
      SplitNoSep(cs[0]);
      SplitJoinSep(cs[1..]);
      assert cs == [cs[0]] + cs[1..];
    }
  }

  /** A normalized path keeps its root and its components through `Components`. */
  lemma {:induction false} ComponentsOfJoin(abs: bool, cs: seq<string>)
    requires forall c :: c in cs ==> ValidComponent(c)
    ensures Components(Join(abs, cs)) == cs
    ensures IsAbs(Join(abs, cs)) == abs
  {
    var split := if cs == [] then [""] else cs;
    SplitJoin(abs, cs);
    assert Keep(split) == cs by {
      if cs == [] { assert [""][1..] == []; }
    }
    if abs {
      assert Keep([""] + split) == Keep(split) by {
        assert ([""] + split)[1..] == split;
      }
    } else if cs != [] {
      JoinSepHead(cs);
    }
  }

  lemma {:induction false} SplitJoin(abs: bool, cs: seq<string>)
    requires forall c :: c in cs ==> ValidComponent(c)
    ensures Split(Join(abs, cs)) == (if abs then [""] else []) + (if cs == [] then [""] else cs)
  {
    var body := JoinSep(cs);
    var split := if cs == [] then [""] else cs;
    assert Split(body) == split by {
      if cs != [] { SplitJoinSep(cs); }
    }
    var p := Join(abs, cs);
    if abs {
      assert p[0] == Sep && p[1..] == body;
      assert Split(p) == [""] + Split(body);
    } else {
      assert p == body;
    }
  }

  lemma {:induction false} JoinSepHead(cs: seq<string>)
    requires cs != []
    requires forall c :: c in cs ==> ValidComponent(c)
    ensures |JoinSep(cs)| > 0 && JoinSep(cs)[0] != Sep
  {
    var c0 := cs[0];
    assert c0 in cs;
    assert |c0| > 0 && c0[0] != Sep by { assert c0[0] in c0; }
    if |cs| > 1 {
      var t := JoinSep(cs[1..]);
      assert JoinSep(cs) == c0 + [Sep] + t;
      assert (c0 + [Sep] + t)[0] == c0[0];
    }
  }


  /** `p` is already in the form `commonpath` produces: its root and components rebuild it. */
  predicate IsNormalized(p: string) {
    Join(IsAbs(p), Components(p)) == p
  }

  /**
   * `Dirname` keeps a normalized path normalized, keeps its root, and drops
   * exactly its last component (nothing when it has none).
   */
  lemma DirnameOfNormalized(p: string)
    requires IsNormalized(p)
    ensures IsNormalized(Dirname(p))
    ensures Components(Dirname(p)) == DropLast(Components(p))
    ensures IsAbs(Dirname(p)) == IsAbs(p)
  {
    var cs := Components(p);
    DirnameOfJoin(IsAbs(p), cs);
    assert forall c :: c in DropLast(cs) ==> c in cs;
    ComponentsOfJoin(IsAbs(p), DropLast(cs));
  }

  /** Only the root itself, among normalized paths, ends in a separator. */
  lemma NormalizedEnd(p: string)
    requires IsNormalized(p)
    ensures p == "" || p == [Sep] || p[|p| - 1] != Sep
  {
    var cs := Components(p);
    if cs != [] {
      JoinSepNonEmptyEnd(cs);
    }
  }

  /** `p.rfind('/')`: the index of the last separator, or -1 when there is none. */
  function RFindSep(p: string): (r: int)
    ensures -1 <= r < |p|
    ensures r >= 0 ==> p[r] == Sep
    ensures forall j :: r < j < |p| ==> p[j] != Sep
  {
    if |p| == 0 then -1
    else if p[|p| - 1] == Sep then |p| - 1
    else RFindSep(p[..|p| - 1])
  }

  /** `p.rstrip('/')`: `p` without its trailing separators. */
  function RStripSep(p: string): (r: string)
    ensures r <= p
    ensures r == "" || r[|r| - 1] != Sep
    ensures forall j :: |r| <= j < |p| ==> p[j] == Sep
  {
    if |p| > 0 && p[|p| - 1] == Sep then RStripSep(p[..|p| - 1]) else p
  }

  /** `head == sep * len(head)`. */
  predicate AllSeps(p: string) {
    forall i :: 0 <= i < |p| ==> p[i] == Sep
  }

  /**
   * `os.path.dirname(p)`: everything up to the last separator, with trailing
   * separators removed unless nothing but separators is left.
   */
  function Dirname(p: string): (r: string)
    ensures r <= p
    ensures r == "" <==> Sep !in p
  {
    var head := p[..RFindSep(p) + 1];
    if head != "" && !AllSeps(head) then RStripSep(head) else head
  }

  /**
   * On a normalized path, `Dirname` drops exactly the last component and keeps
   * the root; on a path with no component it changes nothing.
   */
  lemma DirnameOfJoin(abs: bool, cs: seq<string>)
    requires forall c :: c in cs ==> ValidComponent(c)
    ensures Dirname(Join(abs, cs)) == Join(abs, DropLast(cs))
  {
    if cs == [] {
      DirnameOfRoot(abs);
    } else if |cs| == 1 {
      assert cs[0] in cs;
      DirnameOfSingle(abs, cs[0]);
    } else {
      var init, last := cs[..|cs| - 1], cs[|cs| - 1];
      assert last in cs;
      assert init + [last] == cs;
      DirnameOfLonger(abs, init, last);
    }
  }

  lemma DirnameOfRoot(abs: bool)
    ensures Dirname(Join(abs, [])) == Join(abs, [])
  {
    var p := Join(abs, []);
    assert RFindSep(p) == |p| - 1;
  }

  lemma DirnameOfLonger(abs: bool, init: seq<string>, last: string)
    requires init != []
    requires forall c :: c in init ==> ValidComponent(c)
    requires Sep !in last
    ensures Dirname(Join(abs, init + [last])) == Join(abs, init)
  {
    assert Join(abs, init + [last]) == Join(abs, init) + [Sep] + last by {
      JoinSepSnoc(init, last);
    }
    JoinSepNonEmptyEnd(init);
    DirnameOfSnoc(Join(abs, init), last);
  }

  lemma DirnameOfSingle(abs: bool, c: string)
    requires Sep !in c
    ensures Dirname(Join(abs, [c])) == Join(abs, [])
  {
    var prefix: string := if abs then [Sep] else "";
    var p := Join(abs, [c]);
    assert p == prefix + c;
    assert RFindSep(p) == |prefix| - 1 by {
      forall j | |prefix| <= j < |p| ensures p[j] != Sep {
        assert p[j] == c[j - |prefix|];
      }
      assert abs ==> p[0] == Sep;
    }
  }

  /** `Dirname(h + "/" + c)` is `h` when `h` does not end in a separator. */
  lemma DirnameOfSnoc(h: string, c: string)
    requires |h| > 0 && h[|h| - 1] != Sep
    requires Sep !in c
    ensures Dirname(h + [Sep] + c) == h
  {
    var p := h + [Sep] + c;
    assert RFindSep(p) == |h| by {
      forall j | |h| < j < |p| ensures p[j] != Sep {
        assert p[j] == c[j - |h| - 1];
      }
      assert p[|h|] == Sep;
    }
    var head := h + [Sep];
    assert p[..|h| + 1] == head;
    assert head[|h| - 1] != Sep;
    var r := RStripSep(head);
    assert |r| == |h|;
  }

  lemma {:induction false} JoinSepSnoc(cs: seq<string>, c: string)
    requires |cs| > 0
    ensures JoinSep(cs + [c]) == JoinSep(cs) + [Sep] + c
  {
    if |cs| > 1 {
      assert (cs + [c])[1..] == cs[1..] + [c];
      JoinSepSnoc(cs[1..], c);
    }
  }

  lemma {:induction false} JoinSepNonEmptyEnd(cs: seq<string>)
    requires |cs| > 0
    requires forall c :: c in cs ==> ValidComponent(c)
    ensures |JoinSep(cs)| > 0 && JoinSep(cs)[|JoinSep(cs)| - 1] != Sep
  {
    if |cs| > 1 {
      assert cs[1] in cs[1..];
      JoinSepNonEmptyEnd(cs[1..]);
    } else {
      assert cs[0] in cs;
    }
  }

  /** The outcome of `os.path.commonpath`: a path, or the ValueError for mixed roots. */
  datatype CommonPathResult = Common(path: string) | MixedAbsRel

  /** Every path is absolute, or every path is relative. */
  predicate SameRoot(paths: seq<string>) {
    forall i :: 0 <= i < |paths| ==> IsAbs(paths[i]) == IsAbs(paths[0])
  }

  function ComponentLists(paths: seq<string>): (r: seq<seq<string>>)
    ensures |r| == |paths|
    ensures forall i :: 0 <= i < |paths| ==> r[i] == Components(paths[i])
  {
    seq(|paths|, i requires 0 <= i < |paths| => Components(paths[i]))
  }

  /**
   * `os.path.commonpath(paths)` on a non-empty list: the root shared by all paths
   * followed by their longest common component prefix.
   */
  function CommonPath(paths: seq<string>): (r: CommonPathResult)
    requires |paths| > 0
    ensures r.MixedAbsRel? <==> !SameRoot(paths)
  {
    if !SameRoot(paths) then MixedAbsRel
    else Common(Join(IsAbs(paths[0]), LongestCommonPrefix(ComponentLists(paths))))
  }

  /**
   * What `commonpath` returns is normalized: its own root and components
   * rebuild it, and its root is the one all the paths share.
   */
  lemma CommonPathNormalized(paths: seq<string>)
    requires |paths| > 0 && SameRoot(paths)
    ensures IsNormalized(CommonPath(paths).path)
    ensures IsAbs(CommonPath(paths).path) == IsAbs(paths[0])
  {
    var lists := ComponentLists(paths);
    var l := LongestCommonPrefix(lists);
    assert l <= lists[0];
    assert forall x :: x in l ==> x in lists[0];
    ComponentsOfJoin(IsAbs(paths[0]), l);
  }

  /** The component list of `commonpath`'s result is a prefix of every path's. */
  lemma CommonPathIsSharedPrefix(paths: seq<string>)
    requires |paths| > 0 && SameRoot(paths)
    ensures forall i :: 0 <= i < |paths| ==>
      Components(CommonPath(paths).path) <= Components(paths[i])
      && IsAbs(CommonPath(paths).path) == IsAbs(paths[i])
  {
    var lists := ComponentLists(paths);
    var l := LongestCommonPrefix(lists);
    assert l <= lists[0];
    assert forall x :: x in l ==> x in lists[0];
    ComponentsOfJoin(IsAbs(paths[0]), l);
  }

  /**
   * No longer component sequence is shared: every prefix common to all paths
   * is a prefix of the components of `commonpath`'s result.
   */
  lemma CommonPathIsMaximal(paths: seq<string>, q: seq<string>)
    requires |paths| > 0 && SameRoot(paths)
    requires forall i :: 0 <= i < |paths| ==> q <= Components(paths[i])
    ensures q <= Components(CommonPath(paths).path)
    ensures |q| <= |Components(CommonPath(paths).path)|
  {
    var lists := ComponentLists(paths);
    LongestCommonPrefixMaximal(lists, q);
    CommonPathNormalized(paths);
    var l := LongestCommonPrefix(lists);
    assert l <= lists[0];
    assert forall x :: x in l ==> x in lists[0];
    ComponentsOfJoin(IsAbs(paths[0]), l);
  }

  /** `commonpath` depends only on which paths occur, not on their order or repetitions. */
  lemma CommonPathOfSameElements(xs: seq<string>, ys: seq<string>)
    requires |xs| > 0 && |ys| > 0
    requires forall p :: p in xs <==> p in ys
    ensures CommonPath(xs) == CommonPath(ys)
  {
    SameRootOfSameElements(xs, ys);
    SameRootOfSameElements(ys, xs);
    if SameRoot(xs) {
      assert ys[0] in xs;
      ComponentListsOfSameElements(xs, ys);
      ComponentListsOfSameElements(ys, xs);
      LongestCommonPrefixOfSameElements(ComponentLists(xs), ComponentLists(ys));
    }
  }

  lemma SameRootOfSameElements(xs: seq<string>, ys: seq<string>)
    requires |xs| > 0 && |ys| > 0
    requires forall p :: p in ys ==> p in xs
    ensures SameRoot(xs) ==> SameRoot(ys)
  {
    if SameRoot(xs) {
      forall j | 0 <= j < |ys| ensures IsAbs(ys[j]) == IsAbs(ys[0]) {
        assert ys[j] in xs && ys[0] in xs;
      }
    }
  }

  lemma ComponentListsOfSameElements(xs: seq<string>, ys: seq<string>)
    requires forall p :: p in xs ==> p in ys
    ensures forall l :: l in ComponentLists(xs) ==> l in ComponentLists(ys)
  {
    var lx, ly := ComponentLists(xs), ComponentLists(ys);
    forall l | l in lx ensures l in ly {
      var i :| 0 <= i < |xs| && lx[i] == l;
      assert xs[i] in ys;
      var j :| 0 <= j < |ys| && ys[j] == xs[i];
      assert ly[j] == l;
    }
  }
}
