/**
 * The LINQ query shapes the repositories and services use, over the
 * in-memory sequence that stands for a container: `FirstOrDefault(pred)`,
 * `Where(pred)`, `Any(pred)` and `OrderByDescending(key).FirstOrDefault()`.
 */
module Queries {

  import opened Wrappers

  /** Position of the first element `key` maps to `k`, if there is one. */
  function IndexOfKey<T, K(==)>(xs: seq<T>, key: T -> K, k: K): (r: Option<nat>)
    ensures r.None? <==> forall i :: 0 <= i < |xs| ==> key(xs[i]) != k
    ensures r.Some? ==> r.value < |xs| && key(xs[r.value]) == k
    ensures r.Some? ==> forall j :: 0 <= j < r.value ==> key(xs[j]) != k
  {
    if |xs| == 0 then None
    else if key(xs[0]) == k then Some(0)
    else match IndexOfKey(xs[1..], key, k)
      case None => None
      case Some(i) => Some(i + 1)
  }

  /** `FirstOrDefault(x => key(x) == k)`, with `None` for the default (null). */
  function FindByKey<T(!new), K(==)>(xs: seq<T>, key: T -> K, k: K): (r: Option<T>)
    ensures r.None? <==> forall x :: x in xs ==> key(x) != k
    ensures r.Some? ==> r.value in xs && key(r.value) == k
  {
    match IndexOfKey(xs, key, k)
    case None => None
    case Some(i) => Some(xs[i])
  }

  /**
   * `Where(p)`: the elements satisfying `p`, in their original order, each
   * as often as it occurs in `xs`; the others not at all.
   */
  function Where<T(!new)>(xs: seq<T>, p: T -> bool): (r: seq<T>)
    ensures forall x :: x in r <==> x in xs && p(x)
    ensures forall x :: multiset(r)[x] == if p(x) then multiset(xs)[x] else 0
    ensures |r| <= |xs|
    ensures (forall i :: 0 <= i < |xs| ==> !p(xs[i])) ==> r == []
  {
    if |xs| == 0 then []
    else
      assert xs == [xs[0]] + xs[1..];
      (if p(xs[0]) then [xs[0]] else []) + Where(xs[1..], p)
  }

  /** `Where(x => key(x) == k)`. */
  function WhereKey<T(!new), K(==)>(xs: seq<T>, key: T -> K, k: K): (r: seq<T>)
    ensures forall x :: x in r <==> x in xs && key(x) == k
    ensures forall x :: multiset(r)[x] == if key(x) == k then multiset(xs)[x] else 0
    ensures |r| <= |xs|
    ensures (forall i :: 0 <= i < |xs| ==> key(xs[i]) != k) ==> r == []
  {
    Where(xs, (x: T) => key(x) == k)
  }

  /** `Any(p)`. */
  function Any<T>(xs: seq<T>, p: T -> bool): (b: bool)
    ensures b <==> exists i :: 0 <= i < |xs| && p(xs[i])
  {
    if |xs| == 0 then false else p(xs[0]) || Any(xs[1..], p)
  }

  /**
   * `i` is where a stable descending sort on `at` puts its first element:
   * an element with the greatest `at`, before which every element is
   * strictly earlier.
   */
  ghost predicate IsFirstLatest<T>(xs: seq<T>, at: T -> int, i: int)
  {
    && 0 <= i < |xs|
    && (forall j :: 0 <= j < |xs| ==> at(xs[j]) <= at(xs[i]))
    && (forall j :: 0 <= j < i ==> at(xs[j]) < at(xs[i]))
  }

  /** Position of the element `OrderByDescending(at).FirstOrDefault()` returns. */
  function LatestIndex<T>(xs: seq<T>, at: T -> int): (r: Option<nat>)
    ensures r.None? <==> |xs| == 0
    ensures r.Some? ==> IsFirstLatest(xs, at, r.value)
  {
    if |xs| == 0 then None
    else match LatestIndex(xs[1..], at)
      case None => Some(0)
      case Some(k) => if at(xs[0]) >= at(xs[k + 1]) then Some(0) else Some(k + 1)
  }

  /** `OrderByDescending(at).FirstOrDefault()`. */
  function Latest<T(!new)>(xs: seq<T>, at: T -> int): (r: Option<T>)
    ensures r.None? <==> |xs| == 0
    ensures r.Some? ==> r.value in xs && forall x :: x in xs ==> at(x) <= at(r.value)
  {
    match LatestIndex(xs, at)
    case None => None
    case Some(i) => Some(xs[i])
  }

  /** The first-latest position is unique: the sort's first element is determined by the input. */
  lemma {:induction false} LatestIndexUnique<T>(xs: seq<T>, at: T -> int, i: int)
    requires IsFirstLatest(xs, at, i)
    ensures LatestIndex(xs, at) == Some(i)
  {
  }
}
