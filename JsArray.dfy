/** The two JavaScript array built-ins the note store relies on:
    `filter` and `findIndex` (and `find`, which is `findIndex` followed by
    an index). */
module JsArray {

  /** `Array.prototype.filter`: the elements of `s` that satisfy `p`,
      in their original order. */
  function Filter<T(==)>(s: seq<T>, p: T -> bool): (r: seq<T>)
    ensures |r| <= |s|
    ensures forall k :: 0 <= k < |r| ==> r[k] in s && p(r[k])
    ensures forall k :: 0 <= k < |s| && p(s[k]) ==> s[k] in r
  {
    if s == [] then []
    else (if p(s[0]) then [s[0]] else []) + Filter(s[1..], p)
  }

  /** `r` is `s` with some elements left out and the rest in order. */
  ghost predicate IsSubsequence<T>(r: seq<T>, s: seq<T>)
  {
    r == [] ||
    (s != [] && ((r[0] == s[0] && IsSubsequence(r[1..], s[1..])) || IsSubsequence(r, s[1..])))
  }

  /** Filtering keeps the order: the result is a subsequence. */
  lemma {:induction false} FilterIsSubsequence<T>(s: seq<T>, p: T -> bool)
    ensures IsSubsequence(Filter(s, p), s)
  {
    if s != [] {
      FilterIsSubsequence(s[1..], p);
      var r := Filter(s, p);
      if p(s[0]) {
        assert r == [s[0]] + Filter(s[1..], p);
        assert r[0] == s[0] && r[1..] == Filter(s[1..], p);
      } else {
        assert r == Filter(s[1..], p);
      }
    }
  }

  /** Filtering a concatenation filters each part, and keeps the parts in
      order. Together with the one-element case (which the definition
      gives) this determines `Filter` completely. */
  lemma {:induction false} FilterAppend<T>(a: seq<T>, b: seq<T>, p: T -> bool)
    ensures Filter(a + b, p) == Filter(a, p) + Filter(b, p)
  {
    if a == [] {
      assert a + b == b;
    } else {
      assert (a + b)[1..] == a[1..] + b;
      FilterAppend(a[1..], b, p);
    }
  }

  /** When every element passes, nothing is removed. */
  lemma {:induction false} FilterAllPass<T>(s: seq<T>, p: T -> bool)
    requires forall k :: 0 <= k < |s| ==> p(s[k])
    ensures Filter(s, p) == s
  {
    if s != [] {
      FilterAllPass(s[1..], p);
    }
  }

  /** When no element passes, everything is removed. */
  lemma {:induction false} FilterNonePass<T>(s: seq<T>, p: T -> bool)
    requires forall k :: 0 <= k < |s| ==> !p(s[k])
    ensures Filter(s, p) == []
  {
    if s != [] {
      FilterNonePass(s[1..], p);
    }
  }

  /** When some element fails, the result is strictly shorter. */
  lemma {:induction false} FilterDropsFailing<T>(s: seq<T>, p: T -> bool, k: int)
    requires 0 <= k < |s| && !p(s[k])
    ensures |Filter(s, p)| < |s|
  {
    if k > 0 {
      FilterDropsFailing(s[1..], p, k - 1);
    }
  }

  /** Filtering twice by the same predicate is filtering once. */
  lemma FilterIdempotent<T>(s: seq<T>, p: T -> bool)
    ensures Filter(Filter(s, p), p) == Filter(s, p)
  {
    var r := Filter(s, p);
    FilterAllPass(r, p);
  }

  /** `Array.prototype.findIndex`: the first index of an element of `s`
      that satisfies `p`, or -1 when there is none. */
  function FindIndex<T>(s: seq<T>, p: T -> bool): (r: int)
    ensures -1 <= r < |s|
    ensures r == -1 <==> forall k :: 0 <= k < |s| ==> !p(s[k])
    ensures 0 <= r ==> p(s[r]) && forall k :: 0 <= k < r ==> !p(s[k])
  {
    if s == [] then -1
    else if p(s[0]) then 0
    else
      var k := FindIndex(s[1..], p);
      if k == -1 then -1 else k + 1
  }
}
