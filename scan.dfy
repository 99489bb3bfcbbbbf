/** Index scans over coordinate lists, as the route search performs them
    with `enumerate` loops that stop at the first equal element. */
module Scan {
  import opened Routes

  /** The first index at which `x` occurs in `s`, if any. */
  function FirstIndex<T(==)>(s: seq<T>, x: T): (r: Option<nat>)
    ensures r.None? <==> x !in s
    ensures r.Some? ==> r.value < |s| && s[r.value] == x && x !in s[..r.value]
  {
    if |s| == 0 then None
    else if s[0] == x then Some(0)
    else match FirstIndex(s[1..], x)
      case None => None
      case Some(k) =>
        assert s[1..][..k] == s[1..k + 1];
        Some(k + 1)
  }

  /** The first index satisfying FirstIndex's contract is unique. */
  lemma FirstIndexIs<T>(s: seq<T>, x: T, i: nat)
    requires i < |s| && s[i] == x
    requires forall k :: 0 <= k < i ==> s[k] != x
    ensures FirstIndex(s, x) == Some(i)
  {
  }

  /** The indices below `n` at which `x` occurs in `s`, in increasing order. */
  function Occurrences<T(==)>(s: seq<T>, x: T, n: nat): (r: seq<nat>)
    requires n <= |s|
    ensures forall m :: 0 <= m < |r| ==> r[m] < n && s[r[m]] == x
    ensures forall i {:trigger i in r} :: 0 <= i < n && s[i] == x ==> i in r
    ensures forall m, m' :: 0 <= m < m' < |r| ==> r[m] < r[m']
  {
    if n == 0 then []
    else Occurrences(s, x, n - 1) + (if s[n - 1] == x then [n - 1] else [])
  }

  /** The earliest pair `(i, j)` with `xs[i] == ys[j]`: the smallest `i`
      whose element occurs in `ys`, and for it the smallest `j`. */
  function FirstMatch<T(==)>(xs: seq<T>, ys: seq<T>): (r: Option<(nat, nat)>)
    ensures r.None? <==> forall i :: 0 <= i < |xs| ==> xs[i] !in ys
    ensures r.Some? ==>
      var (i, j) := r.value;
      && i < |xs| && j < |ys| && xs[i] == ys[j]
      && (forall k :: 0 <= k < i ==> xs[k] !in ys)
      && xs[i] !in ys[..j]
  {
    if |xs| == 0 then None
    else match FirstIndex(ys, xs[0])
      case Some(j) => Some((0, j))
      case None =>
        match FirstMatch(xs[1..], ys)
        case None => None
        case Some((i, j)) => Some((i + 1, j))
  }

  /** The earliest pair satisfying FirstMatch's contract is unique. */
  lemma FirstMatchIs<T>(xs: seq<T>, ys: seq<T>, i: nat, j: nat)
    requires i < |xs| && j < |ys| && xs[i] == ys[j]
    requires forall k :: 0 <= k < i ==> xs[k] !in ys
    requires forall k :: 0 <= k < j ==> ys[k] != xs[i]
    ensures FirstMatch(xs, ys) == Some((i, j))
  {
  }

  /** Each element of `s` occurs once. */
  predicate NoDuplicates<T(==)>(s: seq<T>) {
    forall p, q :: 0 <= p < q < |s| ==> s[p] != s[q]
  }
}
