/** `get_connected_routes` and `get_complete_routes` as the loops they are,
    each proved to compute the function of module CombinatorSpec. */
module Combinator {
  import opened Routes
  import opened Scan
  import opened CombinatorSpec

  /** Join one pair of chains: the body of the two innermost loop nests of
      `get_connected_routes` for one (route_a, route_b). */
  method JoinPair(routeA: Chain, routeB: Chain) returns (joined: Option<Chain>)
    requires |routeA| > 0 && |routeB| > 0
    ensures joined == Join(routeA, routeB)
  {
    joined := None;

    // The loop-avoidance check: its `continue` leaves the outcome unchanged.
    for p := 0 to |routeA| {
      for q := 0 to |routeB| {
        if routeA[p].id == routeB[q].id {
          continue;
        }
      }
    }

    var coordsA := routeA[|routeA| - 1].coords;
    var coordsB := routeB[0].coords;
    for i := 0 to |coordsA|
      invariant joined.None?
      invariant forall k :: 0 <= k < i ==> coordsA[k] !in coordsB
    {
      for j := 0 to |coordsB|
        invariant joined.None?
        invariant forall k :: 0 <= k < j ==> coordsB[k] != coordsA[i]
      {
        if coordsA[i] == coordsB[j] {
          var slicedA := routeA[|routeA| - 1].(coords := coordsA[..i + 1]);
          var slicedB := routeB[0].(coords := coordsB[j..]);
          var newRoute := routeA[..|routeA| - 1] + [slicedA];
          newRoute := newRoute + [slicedB];
          JoinAt(routeA, routeB, i, j);
          joined := Some(newRoute);
          break;
        }
      }
      if joined.Some? {
        break;
      }
    }
    if joined.None? {
      assert forall c :: c in coordsA ==> c !in coordsB;
    }
  }

  /** Pair every chain of `groupA` with every chain of `groupB` and join
      them at the earliest shared coordinate of `a`'s last leg and `b`'s
      first leg. */
  method GetConnectedRoutes(groupA: seq<Chain>, groupB: seq<Chain>) returns (results: seq<Chain>)
    requires NonEmptyChains(groupA) && NonEmptyChains(groupB)
    ensures results == Connect(groupA, groupB)
  {
    results := [];
    for x := 0 to |groupA|
      invariant NonEmptyChains(groupA[..x])
      invariant results == Connect(groupA[..x], groupB)
    {
      ConnectSnoc(groupA, groupB, x);
      var row := JoinRow(groupA[x], groupB);
      results := results + row;
    }
    assert groupA[..|groupA|] == groupA;
  }

  /** The `for route_b in group_b` loop of `get_connected_routes` for one
      `route_a`: the joins of `routeA` with `groupB`, in order. */
  method JoinRow(routeA: Chain, groupB: seq<Chain>) returns (results: seq<Chain>)
    requires |routeA| > 0 && NonEmptyChains(groupB)
    ensures results == ConnectRow(routeA, groupB)
  {
    results := [];
    for y := 0 to |groupB|
      invariant NonEmptyChains(groupB[..y])
      invariant results == ConnectRow(routeA, groupB[..y])
    {
      var routeB := groupB[y];
      RowSnoc(routeA, groupB, y);
      var joined := JoinPair(routeA, routeB);
      if joined.Some? {
        results := results + [joined.value];
      }
    }
    assert groupB[..|groupB|] == groupB;
  }

  /** The first loop of `get_complete_routes`: for every candidate and
      every index of its coords, a start entry where the coordinate is
      `start` and an end entry where it is `end`. */
  method SliceAtEndpoints(cands: seq<Route>, start: Coord, end: Coord)
    returns (startRoutes: seq<Route>, endRoutes: seq<Route>)
    ensures startRoutes == StartRoutes(cands, start)
    ensures endRoutes == EndRoutes(cands, end)
  {
    startRoutes, endRoutes := [], [];
    for c := 0 to |cands|
      invariant startRoutes == StartRoutes(cands[..c], start)
      invariant endRoutes == EndRoutes(cands[..c], end)
    {
      var cand := cands[c];
      assert cands[..c + 1][..c] == cands[..c];
      for i := 0 to |cand.coords|
        invariant startRoutes == StartRoutes(cands[..c], start) + StartSlices(cand, start, i)
        invariant endRoutes == EndRoutes(cands[..c], end) + EndSlices(cand, end, i)
      {
        var coord := cand.coords[i];
        if start == coord {
          startRoutes := startRoutes + [cand.(coords := cand.coords[i..])];
        }
        if end == coord {
          endRoutes := endRoutes + [cand.(coords := cand.coords[..i + 1])];
        }
      }
    }
    assert cands[..|cands|] == cands;
  }

  /** The second loop of `get_complete_routes`: each start entry that
      reaches `end` gives the one-leg chain cut at its first `end`. */
  method FindDirectRoutes(startRoutes: seq<Route>, end: Coord) returns (completeRoutes: seq<Chain>)
    ensures completeRoutes == Directs(startRoutes, end)
  {
    completeRoutes := [];
    for s := 0 to |startRoutes|
      invariant completeRoutes == Directs(startRoutes[..s], end)
    {
      var startRoute := startRoutes[s];
      assert startRoutes[..s + 1][..s] == startRoutes[..s];
      for i := 0 to |startRoute.coords|
        invariant forall k :: 0 <= k < i ==> startRoute.coords[k] != end
        invariant completeRoutes == Directs(startRoutes[..s], end)
      {
        if end == startRoute.coords[i] {
          FirstIndexIs(startRoute.coords, end, i);
          completeRoutes := completeRoutes + [[startRoute.(coords := startRoute.coords[..i + 1])]];
          break;
        }
      }
      assert completeRoutes == Directs(startRoutes[..s + 1], end);
    }
    assert startRoutes[..|startRoutes|] == startRoutes;
  }

  /** `get_complete_routes`: the direct single-leg chains if any candidate
      offers one, else the bounded bidirectional search; `None` when the
      last round ends without a verdict. */
  method GetCompleteRoutes(cands: seq<Route>, start: Coord, end: Coord) returns (routes: Option<seq<Chain>>)
    ensures routes == CompleteRoutes(cands, start, end)
  {
    var startRoutes, endRoutes := SliceAtEndpoints(cands, start, end);
    var completeRoutes := FindDirectRoutes(startRoutes, end);
    if |completeRoutes| > 0 {
      return Some(completeRoutes);
    }

    var startNetwork := seq(|startRoutes|, k requires 0 <= k < |startRoutes| => [startRoutes[k]]);
    var endNetwork := seq(|endRoutes|, k requires 0 <= k < |endRoutes| => [endRoutes[k]]);
    var fullNetwork := seq(|cands|, k requires 0 <= k < |cands| => [cands[k]]);
    assert startNetwork == Singletons(startRoutes);
    assert endNetwork == Singletons(endRoutes);
    assert fullNetwork == Singletons(cands);
    routes := SearchRounds(startNetwork, endNetwork, fullNetwork);
  }

  /** The `for i in range(5)` loop of `get_complete_routes`. */
  method SearchRounds(startNetwork0: seq<Chain>, endNetwork0: seq<Chain>, fullNetwork: seq<Chain>)
    returns (routes: Option<seq<Chain>>)
    requires NonEmptyChains(startNetwork0) && NonEmptyChains(endNetwork0) && NonEmptyChains(fullNetwork)
    ensures routes == Search(startNetwork0, endNetwork0, fullNetwork, 0)
  {
    var startNetwork, endNetwork := startNetwork0, endNetwork0;
    for i := 0 to Rounds
      invariant NonEmptyChains(startNetwork) && NonEmptyChains(endNetwork)
      invariant Search(startNetwork, endNetwork, fullNetwork, i) == Search(startNetwork0, endNetwork0, fullNetwork, 0)
    {
      var completeRoutes := GetConnectedRoutes(startNetwork, endNetwork);
      if |completeRoutes| > 0 {
        return Some(completeRoutes);
      }
      if i % 2 == 0 {
        startNetwork := GetConnectedRoutes(startNetwork, fullNetwork);
      } else {
        endNetwork := GetConnectedRoutes(fullNetwork, endNetwork);
      }
      if |startNetwork| == 0 || |endNetwork| == 0 {
        return Some(completeRoutes);
      }
    }
    return None;
  }
}
