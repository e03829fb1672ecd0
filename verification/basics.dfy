/** Small building blocks shared by the rest of the model: an option type for
    values a request may leave out, Python's list-slicing rule, and a filter
    over sequences standing in for an SQL `WHERE` clause. */
module Basics {

  /** A value that may be absent: a missing JSON key, a missing query
      argument, or a row that `one_or_none()` did not find. */
  datatype Option<+T> = None | Some(value: T)

  function Min(a: int, b: int): int { if a <= b then a else b }

  function Max(a: int, b: int): int { if a <= b then b else a }

  /** Python's normalisation of one bound of `s[start:end]` against a list of
      length `n`: a negative bound counts from the end, and the result is
      clipped to `[0, n]`. */
  function SliceBound(i: int, n: nat): (r: nat)
    ensures r <= n
  {
    if i < 0 then Max(0, n + i) else Min(i, n)
  }

  /** Python's `s[start:end]` (step 1). */
  function PySlice<T>(s: seq<T>, start: int, end: int): (r: seq<T>)
    ensures start <= end ==> |r| <= end - start
    ensures 0 <= start <= end ==> r == s[Min(start, |s|)..Min(end, |s|)]
  {
    var a := SliceBound(start, |s|);
    var b := SliceBound(end, |s|);
    assert start <= end ==> b - a <= end - start;
    if a <= b then s[a..b] else []
  }

  /** The rows of `xs` for which `keep` holds, in their original order: the
      sequence counterpart of a `WHERE` clause. Each row is kept exactly as
      often as it occurs, or dropped entirely. */
  function Filter<T(==,!new)>(xs: seq<T>, keep: T -> bool): (r: seq<T>)
    ensures forall x :: multiset(r)[x] == (if keep(x) then multiset(xs)[x] else 0)
    ensures forall x :: x in r <==> x in xs && keep(x)
    ensures |r| <= |xs|
  {
    if |xs| == 0 then []
    else
      var rest := Filter(xs[1..], keep);
      assert xs == [xs[0]] + xs[1..];
      if keep(xs[0]) then [xs[0]] + rest else rest
  }
}
