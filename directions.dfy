/** The request handling of `get_directions` around the route search: the
    check for missing request data, the network coordinates of the
    candidate routes, the two walks along the street path and the call of
    the route search at the boarding and alighting points. The candidate
    routes (the rows of the route query) and the street path (the shortest
    path of the street graph) are inputs. */
module Directions {
  import opened Routes
  import opened Walk
  import opened CombinatorSpec
  import opened Combinator
  import opened SearchLemmas

  // ---------------------------------------------------------------------
  // Requests and responses

  /** The `route_area` object of a request; its fields only choose the
      area the route query is restricted to. */
  datatype Area = Area(region: Option<string>, state: Option<string>, cityId: Option<int>)

  /** One entry of the list of required request data. */
  datatype Value = Point(point: Coord) | AreaValue(area: Area)

  /** The body of a direction request; an absent key is `None`. */
  datatype Request = Request(origin: Option<Coord>, destination: Option<Coord>, routeArea: Option<Area>)

  /** What the handler answers: a bad request, or the two walks and the
      route chains (all three empty when the path never meets a route). */
  datatype Response =
    | BadRequest
    | Found(startWalk: seq<Coord>, endWalk: seq<Coord>, routes: seq<Chain>)

  /** `[origin, destination, route_area]`, the data the handler requires. */
  function RequiredData(req: Request): (data: seq<Option<Value>>)
    ensures |data| == 3
    ensures data[0].None? <==> req.origin.None?
    ensures data[1].None? <==> req.destination.None?
    ensures data[2].None? <==> req.routeArea.None?
  {
    [ if req.origin.Some? then Some(Point(req.origin.value)) else None,
      if req.destination.Some? then Some(Point(req.destination.value)) else None,
      if req.routeArea.Some? then Some(AreaValue(req.routeArea.value)) else None ]
  }

  /** `has_missing_data`: an early-return scan for an absent entry. */
  method HasMissingData(required: seq<Option<Value>>) returns (missing: bool)
    ensures missing <==> exists k :: 0 <= k < |required| && required[k].None?
  {
    for k := 0 to |required|
      invariant forall l :: 0 <= l < k ==> required[l].Some?
    {
      if required[k].None? {
        return true;
      }
    }
    return false;
  }

  // ---------------------------------------------------------------------
  // The handler

  /** The answer of `get_directions` for request `req`, candidate routes
      `cands` and street path `path`. */
  function Directions(req: Request, cands: seq<Route>, path: seq<Coord>): Response {
    if exists k :: 0 <= k < 3 && RequiredData(req)[k].None? then BadRequest
    else
      var net := NetworkCoords(cands);
      match (StartWalk(path, net), EndWalk(path, net))
      case (Some(startWalk), Some(endWalk)) =>
        var routes := CompleteRoutes(cands, Last(startWalk), endWalk[0]);
        Found(startWalk, endWalk, if routes.Some? then routes.value else [])
      case _ => Found([], [], [])
  }

  /** The handler after the request body has been read: the steps of
      `get_directions` from the check of the required data on, with the
      route query and the street path given. */
  method GetDirections(req: Request, cands: seq<Route>, path: seq<Coord>) returns (resp: Response)
    ensures resp == Directions(req, cands, path)
  {
    var missing := HasMissingData(RequiredData(req));
    if missing {
      return BadRequest;
    }
    var net := CollectNetworkCoords(cands);
    var startWalk := FindStartWalk(path, net);
    var endWalk := FindEndWalk(path, net);
    if startWalk.None? || endWalk.None? {
      return Found([], [], []);
    }
    var start, end := Last(startWalk.value), endWalk.value[0];
    var routes := GetCompleteRoutes(cands, start, end);
    if routes.None? {
      routes := Some([]);
    }
    resp := Found(startWalk.value, endWalk.value, routes.value);
  }

  // ---------------------------------------------------------------------
  // What the handler guarantees

  /** The request is refused exactly when origin, destination or route
      area is absent. */
  lemma BadRequestExactly(req: Request, cands: seq<Route>, path: seq<Coord>)
    ensures Directions(req, cands, path).BadRequest? <==>
      req.origin.None? || req.destination.None? || req.routeArea.None?
  {
    var data := RequiredData(req);
    if req.origin.None? {
      assert data[0].None?;
    } else if req.destination.None? {
      assert data[1].None?;
    } else if req.routeArea.None? {
      assert data[2].None?;
    }
  }

  /** A complete request is answered: with empty walks and no routes
      exactly when no coordinate of the street path lies on a candidate
      route, otherwise with two non-empty walks. */
  lemma NoBoardingPoint(req: Request, cands: seq<Route>, path: seq<Coord>)
    requires req.origin.Some? && req.destination.Some? && req.routeArea.Some?
    ensures var resp := Directions(req, cands, path);
      && resp.Found?
      && (resp.startWalk == [] <==> forall k :: 0 <= k < |path| ==> !OnSomeRoute(path[k], cands))
      && (resp.startWalk == [] <==> resp.endWalk == [])
      && (resp.startWalk == [] ==> resp.routes == [])
  {
    BadRequestExactly(req, cands, path);
    var net := NetworkCoords(cands);
    WalksOrdered(path, net);
    forall k | 0 <= k < |path|
      ensures path[k] in net <==> OnSomeRoute(path[k], cands)
    {
      NetworkCoordsMembers(cands, path[k]);
    }
  }

  /** When the path meets the route network, the start walk runs along the
      path to its first coordinate on a candidate route (the boarding
      point) and the end walk from its last such coordinate (the alighting
      point) to its end; the boarding point comes no later than the
      alighting point. */
  lemma DirectionsWalks(req: Request, cands: seq<Route>, path: seq<Coord>)
    requires req.origin.Some? && req.destination.Some? && req.routeArea.Some?
    ensures var resp := Directions(req, cands, path);
      var sw, ew := resp.startWalk, resp.endWalk;
      resp.Found? && sw != [] ==>
        && 0 < |sw| <= |path| && sw == path[..|sw|]
        && 0 < |ew| <= |path| && ew == path[|path| - |ew|..]
        && OnSomeRoute(Last(sw), cands) && OnSomeRoute(ew[0], cands)
        && (forall k :: 0 <= k < |sw| - 1 ==> !OnSomeRoute(path[k], cands))
        && (forall k :: |path| - |ew| < k < |path| ==> !OnSomeRoute(path[k], cands))
        && |sw| - 1 <= |path| - |ew|
  {
    NoBoardingPoint(req, cands, path);
    var net := NetworkCoords(cands);
    var resp := Directions(req, cands, path);
    if resp.startWalk != [] {
      assert resp.startWalk == StartWalk(path, net).value;
      assert resp.endWalk == EndWalk(path, net).value;
      WalksOnRoutes(path, cands);
    }
  }

  /** Every route chain of the answer begins at the boarding point, is made
      of meeting legs that are slices of the candidates and has one to four
      legs; one- and two-leg chains finish at the alighting point. */
  lemma DirectionsRoutes(req: Request, cands: seq<Route>, path: seq<Coord>)
    requires req.origin.Some? && req.destination.Some? && req.routeArea.Some?
    ensures var resp := Directions(req, cands, path);
      resp.Found? && resp.startWalk != [] ==>
        forall c :: c in resp.routes ==>
          && StartChain(c, Last(resp.startWalk)) && LegsOf(c, cands) && 1 <= |c| <= 4
          && (|c| <= 2 ==> EndsAt(c, resp.endWalk[0]))
  {
    NoBoardingPoint(req, cands, path);
    var net := NetworkCoords(cands);
    var resp := Directions(req, cands, path);
    if resp.startWalk != [] {
      var sw, ew := StartWalk(path, net).value, EndWalk(path, net).value;
      assert resp.startWalk == sw && resp.endWalk == ew;
      CompleteRoutesShape(cands, Last(sw), ew[0]);
    }
  }

  /** The walks in terms of the candidate routes rather than the network
      coordinates: they end and begin on a route, and the coordinates they
      pass before and after that are on none. */
  lemma WalksOnRoutes(path: seq<Coord>, cands: seq<Route>)
    ensures var net := NetworkCoords(cands);
      StartWalk(path, net).Some? && EndWalk(path, net).Some? ==>
        var sw, ew := StartWalk(path, net).value, EndWalk(path, net).value;
        && OnSomeRoute(Last(sw), cands) && OnSomeRoute(ew[0], cands)
        && (forall k :: 0 <= k < |sw| - 1 ==> !OnSomeRoute(path[k], cands))
        && (forall k :: |path| - |ew| < k < |path| ==> !OnSomeRoute(path[k], cands))
        && |sw| - 1 <= |path| - |ew|
  {
    var net := NetworkCoords(cands);
    WalksOrdered(path, net);
    forall k | 0 <= k < |path|
      ensures path[k] in net <==> OnSomeRoute(path[k], cands)
    {
      NetworkCoordsMembers(cands, path[k]);
    }
    if StartWalk(path, net).Some? && EndWalk(path, net).Some? {
      NetworkCoordsMembers(cands, Last(StartWalk(path, net).value));
      NetworkCoordsMembers(cands, EndWalk(path, net).value[0]);
    }
  }
}
