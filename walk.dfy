/** The walk-segment part of `get_directions`: the union of the candidate
    routes' coordinates, and the walks at both ends of the street path up to
    the first and from the last coordinate that lies on that union. */
module Walk {
  import opened Routes
  import opened Scan

  // ---------------------------------------------------------------------
  // The network coordinates

  /** `acc` followed by the coordinates of `cs` that are not yet in it, each
      once, in the order they first appear. */
  function AddNew(acc: seq<Coord>, cs: seq<Coord>): (r: seq<Coord>)
    ensures |acc| <= |r| && r[..|acc|] == acc
    ensures forall c :: c in r <==> c in acc || c in cs
    ensures NoDuplicates(acc) ==> NoDuplicates(r)
  {
    if |cs| == 0 then acc
    else
      var r' := AddNew(acc, cs[..|cs| - 1]);
      assert forall c :: c in cs <==> c in cs[..|cs| - 1] || c == Last(cs) by {
        assert cs == cs[..|cs| - 1] + [Last(cs)];
      }
      if Last(cs) in r' then r' else r' + [Last(cs)]
  }

  /** `route_network_coords`: every coordinate of the candidates, once each,
      candidate by candidate. */
  function NetworkCoords(cands: seq<Route>): (net: seq<Coord>)
    ensures NoDuplicates(net)
  {
    if |cands| == 0 then [] else AddNew(NetworkCoords(cands[..|cands| - 1]), Last(cands).coords)
  }

  /** Coordinate `c` lies on one of the candidate routes. */
  ghost predicate OnSomeRoute(c: Coord, cands: seq<Route>) {
    exists k :: 0 <= k < |cands| && c in cands[k].coords
  }

  /** The network holds exactly the coordinates that lie on some candidate. */
  lemma {:induction false} NetworkCoordsMembers(cands: seq<Route>, c: Coord)
    ensures c in NetworkCoords(cands) <==> OnSomeRoute(c, cands)
  {
    if |cands| > 0 {
      var n := |cands| - 1;
      NetworkCoordsMembers(cands[..n], c);
      if OnSomeRoute(c, cands[..n]) {
        var k :| 0 <= k < n && c in cands[..n][k].coords;
        assert c in cands[k].coords;
      }
      if c in cands[n].coords {
        assert OnSomeRoute(c, cands);
      }
      if OnSomeRoute(c, cands) {
        var k :| 0 <= k < |cands| && c in cands[k].coords;
        if k < n {
          assert c in cands[..n][k].coords;
        }
      }
    }
  }

  /** The loop over the query rows of `get_directions` that collects the
      network coordinates, skipping those already collected. */
  method CollectNetworkCoords(cands: seq<Route>) returns (net: seq<Coord>)
    ensures net == NetworkCoords(cands)
  {
    net := [];
    for c := 0 to |cands|
      invariant net == NetworkCoords(cands[..c])
    {
      var route := cands[c];
      assert cands[..c + 1][..c] == cands[..c];
      for i := 0 to |route.coords|
        invariant net == AddNew(NetworkCoords(cands[..c]), route.coords[..i])
      {
        var coord := route.coords[i];
        assert route.coords[..i + 1][..i] == route.coords[..i];
        if coord !in net {
          net := net + [coord];
        }
      }
      assert route.coords[..|route.coords|] == route.coords;
    }
    assert cands[..|cands|] == cands;
  }

  // ---------------------------------------------------------------------
  // The walks

  /** `start_walk`: the path up to and including its first coordinate in
      `net`; `None` when no coordinate of the path is in `net`. */
  function StartWalk(path: seq<Coord>, net: seq<Coord>): (w: Option<seq<Coord>>)
    ensures w.None? <==> forall k :: 0 <= k < |path| ==> path[k] !in net
    ensures w.Some? ==>
      && 0 < |w.value| <= |path| && w.value == path[..|w.value|]
      && Last(w.value) in net
      && forall k :: 0 <= k < |w.value| - 1 ==> path[k] !in net
  {
    if |path| == 0 then None
    else if path[0] in net then Some([path[0]])
    else match StartWalk(path[1..], net)
      case None => None
      case Some(w) =>
        assert forall k :: 0 < k < |w| + 1 ==> path[k] == path[1..][k - 1];
        Some([path[0]] + w)
  }

  /** `end_walk`: the path from its last coordinate in `net` to its end;
      `None` when no coordinate of the path is in `net`. */
  function EndWalk(path: seq<Coord>, net: seq<Coord>): (w: Option<seq<Coord>>)
    ensures w.None? <==> forall k :: 0 <= k < |path| ==> path[k] !in net
    ensures w.Some? ==>
      && 0 < |w.value| <= |path| && w.value == path[|path| - |w.value|..]
      && w.value[0] in net
      && forall k :: |path| - |w.value| < k < |path| ==> path[k] !in net
  {
    if |path| == 0 then None
    else if Last(path) in net then Some([Last(path)])
    else match EndWalk(path[..|path| - 1], net)
      case None => None
      case Some(w) => Some(w + [Last(path)])
  }

  /** The forward scan of `get_directions` for the walk to the network. */
  method FindStartWalk(path: seq<Coord>, net: seq<Coord>) returns (startWalk: Option<seq<Coord>>)
    ensures startWalk == StartWalk(path, net)
  {
    startWalk := None;
    for i := 0 to |path|
      invariant forall k :: 0 <= k < i ==> path[k] !in net
    {
      if path[i] in net {
        startWalk := Some(path[..i + 1]);
        break;
      }
    }
  }

  /** The backward scan of `get_directions` for the walk from the network. */
  method FindEndWalk(path: seq<Coord>, net: seq<Coord>) returns (endWalk: Option<seq<Coord>>)
    ensures endWalk == EndWalk(path, net)
  {
    endWalk := None;
    var i := |path|;
    while i > 0
      invariant 0 <= i <= |path|
      invariant forall k :: i <= k < |path| ==> path[k] !in net
    {
      i := i - 1;
      if path[i] in net {
        endWalk := Some(path[i..]);
        break;
      }
    }
  }

  /** Both walks exist together, and the boarding point (the last
      coordinate of the start walk) comes no later on the path than the
      alighting point (the first coordinate of the end walk). */
  lemma WalksOrdered(path: seq<Coord>, net: seq<Coord>)
    ensures StartWalk(path, net).Some? <==> EndWalk(path, net).Some?
    ensures StartWalk(path, net).Some? ==>
      |StartWalk(path, net).value| - 1 <= |path| - |EndWalk(path, net).value|
  {
    var sw, ew := StartWalk(path, net), EndWalk(path, net);
    if sw.Some? {
      var b := |sw.value| - 1;
      assert path[b] == Last(sw.value);
      if ew.Some? {
        var a := |path| - |ew.value|;
        assert path[a] == ew.value[0];
      }
    }
  }
}
