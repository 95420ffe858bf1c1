/**
 * The java.util.stream operations the bean-introspection helpers are built from,
 * over a sequence that stands for the stream's encounter order.
 */
module Streams {
  import opened Wrappers

  /** `stream().filter(p)`: the elements satisfying `p`, in encounter order. */
  function Filter<T(==,!new)>(s: seq<T>, p: T -> bool): (r: seq<T>)
    ensures |r| <= |s|
    ensures forall x :: x in r <==> x in s && p(x)
  {
    if s == [] then []
    else if p(s[0]) then [s[0]] + Filter(s[1..], p)
    else Filter(s[1..], p)
  }

  /** `findFirst()`: the first element of the stream, or empty. */
  function FindFirst<T>(s: seq<T>): Option<T>
  {
    if s == [] then None else Some(s[0])
  }

  /** `anyMatch(isEqual(x))`: whether some element equals `x`. */
  function AnyMatch<T(==,!new)>(s: seq<T>, x: T): (r: bool)
    ensures r <==> x in s
  {
    s != [] && (s[0] == x || AnyMatch(s[1..], x))
  }

  /** Position `k` holds the first element of `s` that satisfies `p`. */
  ghost predicate FirstMatchAt<T>(s: seq<T>, p: T -> bool, k: int)
  {
    0 <= k < |s| && p(s[k]) && forall j :: 0 <= j < k ==> !p(s[j])
  }

  /** `filter(p).findFirst()` yields the first element of `s` satisfying `p`. */
  lemma {:induction false} FilterHeadIsFirstMatch<T(!new)>(s: seq<T>, p: T -> bool)
    requires Filter(s, p) != []
    ensures exists k :: FirstMatchAt(s, p, k) && s[k] == Filter(s, p)[0]
  {
    if p(s[0]) {
      assert FirstMatchAt(s, p, 0);
    } else {
      FilterHeadIsFirstMatch(s[1..], p);
      var k :| FirstMatchAt(s[1..], p, k) && s[1..][k] == Filter(s[1..], p)[0];
      assert FirstMatchAt(s, p, k + 1);
    }
  }

  /**
   * `filter(p).findFirst()` is empty exactly when no element satisfies `p`,
   * and otherwise holds the first element that does.
   */
  lemma {:induction false} FindFirstOfFilter<T(!new)>(s: seq<T>, p: T -> bool)
    ensures FindFirst(Filter(s, p)).None? <==> forall i :: 0 <= i < |s| ==> !p(s[i])
    ensures FindFirst(Filter(s, p)).Some? ==>
      exists k :: FirstMatchAt(s, p, k) && s[k] == FindFirst(Filter(s, p)).value
  {
    var r := Filter(s, p);
    if r == [] {
      assert forall i :: 0 <= i < |s| ==> s[i] !in r;
    } else {
      FilterHeadIsFirstMatch(s, p);
      assert r[0] in r;
    }
  }

  /** Filtering distributes over concatenation, so earlier elements come first. */
  lemma {:induction false} FilterAppend<T(!new)>(s: seq<T>, t: seq<T>, p: T -> bool)
    ensures Filter(s + t, p) == Filter(s, p) + Filter(t, p)
  {
    if s == [] {
      assert s + t == t;
    } else {
      assert (s + t)[1..] == s[1..] + t;
      FilterAppend(s[1..], t, p);
    }
  }
}
