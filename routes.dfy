/** The values the direction finder works on: coordinates, candidate routes
    (one row of the route query, converted to a record), legs and chains. */
module Routes {

  datatype Option<+T> = None | Some(value: T)

  /** A (latitude, longitude) pair. The route search only ever compares
      coordinates for equality, so no arithmetic is defined on them. */
  datatype Coord = Coord(lat: real, lon: real)

  /** A candidate route as the handler builds it from one query row.
      A leg is a Route value whose coords were sliced; all other fields
      are the parent route's. */
  datatype Route = Route(
    id: int,
    name: string,
    description: string,
    startTime: string,
    endTime: string,
    coords: seq<Coord>,
    connections: string,
    uploaderId: int
  )

  /** One candidate journey: legs in travel order. */
  type Chain = seq<Route>

  function Last<T>(s: seq<T>): T
    requires |s| > 0
  {
    s[|s| - 1]
  }

  /** `leg` carries exactly the metadata of `r` (every field but coords). */
  predicate SameMeta(leg: Route, r: Route) {
    leg.(coords := r.coords) == r
  }

  /** `xs` is a contiguous piece of `ys`. */
  ghost predicate IsInfix<T>(xs: seq<T>, ys: seq<T>) {
    exists i, j :: 0 <= i <= j <= |ys| && xs == ys[i..j]
  }

  /** `leg` is a slice of route `r`: same metadata, contiguous coords. */
  ghost predicate SliceOf(leg: Route, r: Route) {
    SameMeta(leg, r) && IsInfix(leg.coords, r.coords)
  }

  /** `leg` is a slice of one of the routes of `pool`. */
  ghost predicate LegOf(leg: Route, pool: seq<Route>) {
    exists k :: 0 <= k < |pool| && SliceOf(leg, pool[k])
  }

  /** Every leg of `c` is a slice of a route of `pool`. */
  ghost predicate LegsOf(c: Chain, pool: seq<Route>) {
    forall k :: 0 <= k < |c| ==> LegOf(c[k], pool)
  }

  /** Consecutive legs meet: the last coordinate of each leg is the first
      coordinate of the next one. */
  ghost predicate Continuous(c: Chain) {
    forall k, l :: 0 <= k < l < |c| && l == k + 1 ==> Meets(c[k], c[l])
  }

  /** Leg `b` starts where leg `a` ends. */
  predicate Meets(a: Route, b: Route) {
    |a.coords| > 0 && |b.coords| > 0 && Last(a.coords) == b.coords[0]
  }

  /** Every chain of the group has at least one leg (the code reads
      `route[-1]` and `route[0]` of each). */
  predicate NonEmptyChains(g: seq<Chain>) {
    forall k :: 0 <= k < |g| ==> |g[k]| > 0
  }

  /** An infix of an infix is an infix. */
  lemma InfixTrans<T>(xs: seq<T>, ys: seq<T>, zs: seq<T>)
    requires IsInfix(xs, ys) && IsInfix(ys, zs)
    ensures IsInfix(xs, zs)
  {
    var i, j :| 0 <= i <= j <= |ys| && xs == ys[i..j];
    var i', j' :| 0 <= i' <= j' <= |zs| && ys == zs[i'..j'];
    assert |ys| == j' - i';
    forall t | 0 <= t < j - i
      ensures xs[t] == zs[i' + i..i' + j][t]
    {
      assert xs[t] == ys[i + t] == zs[i' + i + t];
    }
    assert xs == zs[i' + i..i' + j];
  }

  /** A piece of a leg of `pool` that keeps its metadata is a leg of `pool`. */
  lemma InfixLeg(piece: Route, leg: Route, pool: seq<Route>)
    requires LegOf(leg, pool)
    requires SameMeta(piece, leg) && IsInfix(piece.coords, leg.coords)
    ensures LegOf(piece, pool)
  {
    var k :| 0 <= k < |pool| && SliceOf(leg, pool[k]);
    InfixTrans(piece.coords, leg.coords, pool[k].coords);
    assert SliceOf(piece, pool[k]);
  }

  /** Re-slicing a leg of `pool` gives a leg of `pool`. */
  lemma ResliceLeg(leg: Route, pool: seq<Route>, i: nat, j: nat)
    requires LegOf(leg, pool)
    requires i <= j <= |leg.coords|
    ensures LegOf(leg.(coords := leg.coords[i..j]), pool)
  {
    var cut := leg.(coords := leg.coords[i..j]);
    assert IsInfix(cut.coords, leg.coords);
    InfixLeg(cut, leg, pool);
  }
}
