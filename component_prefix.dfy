/**
 * Longest common prefix of component lists: the core of `os.path.commonpath`,
 * which compares paths component by component rather than character by character.
 */
module ComponentPrefix {

  /** True when `q` is a prefix of every list in `xs`. */
  ghost predicate SharedByAll<T>(q: seq<T>, xs: seq<seq<T>>) {
    forall i :: 0 <= i < |xs| ==> q <= xs[i]
  }

  /** Concatenation of lists is associative. */
  lemma AppendAssoc<T>(a: seq<T>, b: seq<T>, c: seq<T>)
    ensures a + (b + c) == a + b + c
  {
  }

  /** The longest common prefix of two lists. */
  function CommonPrefix2<T(==)>(a: seq<T>, b: seq<T>): (r: seq<T>)
    ensures r <= a && r <= b
    ensures |r| < |a| && |r| < |b| ==> a[|r|] != b[|r|]
  {
    if a == [] || b == [] || a[0] != b[0] then []
    else [a[0]] + CommonPrefix2(a[1..], b[1..])
  }

  /** Every common prefix of `a` and `b` is a prefix of `CommonPrefix2(a, b)`. */
  lemma CommonPrefix2Maximal<T>(a: seq<T>, b: seq<T>, q: seq<T>)
    requires q <= a && q <= b
    ensures q <= CommonPrefix2(a, b)
  {
  }

  /** The longest common prefix of a non-empty list of lists. */
  function LongestCommonPrefix<T(==)>(xs: seq<seq<T>>): (r: seq<T>)
    requires |xs| > 0
    ensures SharedByAll(r, xs)
  {
    if |xs| == 1 then xs[0]
    else CommonPrefix2(xs[0], LongestCommonPrefix(xs[1..]))
  }

  /** No common prefix is longer than `LongestCommonPrefix(xs)`: each is a prefix of it. */
  lemma {:induction false} LongestCommonPrefixMaximal<T>(xs: seq<seq<T>>, q: seq<T>)
    requires |xs| > 0
    requires SharedByAll(q, xs)
    ensures q <= LongestCommonPrefix(xs)
    ensures |q| <= |LongestCommonPrefix(xs)|
  {
    if |xs| > 1 {
      assert SharedByAll(q, xs[1..]) by {
        forall i | 0 <= i < |xs[1..]| ensures q <= xs[1..][i] {
          assert xs[1..][i] == xs[i + 1];
        }
      }
      LongestCommonPrefixMaximal(xs[1..], q);
      CommonPrefix2Maximal(xs[0], LongestCommonPrefix(xs[1..]), q);
    }
  }

  /**
   * The longest common prefix depends only on which lists occur, not on their
   * order or on repetitions.
   */
  lemma LongestCommonPrefixOfSameElements<T>(xs: seq<seq<T>>, ys: seq<seq<T>>)
    requires |xs| > 0 && |ys| > 0
    requires forall x :: x in xs <==> x in ys
    ensures LongestCommonPrefix(xs) == LongestCommonPrefix(ys)
  {
    var lx, ly := LongestCommonPrefix(xs), LongestCommonPrefix(ys);
    assert SharedByAll(lx, ys) by {
      forall j | 0 <= j < |ys| ensures lx <= ys[j] {
        assert ys[j] in xs;
      }
    }
    assert SharedByAll(ly, xs) by {
      forall j | 0 <= j < |xs| ensures ly <= xs[j] {
        assert xs[j] in ys;
      }
    }
    LongestCommonPrefixMaximal(ys, lx);
    LongestCommonPrefixMaximal(xs, ly);
  }
}
