# SanDaan direction finding: the route-combination core

SanDaan helps commuters get from an origin to a destination over
crowd-sourced jeepney and bus routes. Each route is a polyline of
coordinates. When a request arrives, the `get_directions` endpoint does the
following:

1. It refuses the request if origin, destination or route area is missing.
2. It collects the network coordinates: every coordinate of the candidate
   routes (those the database query returns for the area and the current
   time), each kept once.
3. It walks the shortest street path forward to the first coordinate on that
   network (the start walk, ending at the boarding point). It walks the path
   backward to the last such coordinate (the end walk, starting at the
   alighting point).
4. It asks `get_complete_routes` for chains of route legs from the boarding
   point to the alighting point.

`get_complete_routes` does the following:

- It cuts every candidate at each occurrence of the boarding point (start
  entries) and of the alighting point (end entries).
- It returns the single-leg direct chains if there are any.
- Otherwise it runs a bidirectional search of at most five rounds. Each
  round joins the start frontier with the end frontier through
  `get_connected_routes`. When that join gives nothing, the round extends the
  start frontier (even rounds) or the end frontier (odd rounds) against all
  candidates.

`get_connected_routes` joins two chains at the earliest coordinate of the
first chain's last leg that also lies on the second chain's first leg.

The model keeps the source's imperative form. Each loop of the handler and of
the two search functions is a Dafny method with loop invariants. Each method
is proved equal to a recursive function, and that function mirrors the loop
order element by element. The properties are lemmas about these functions:

- where every leg comes from;
- how chains begin, meet and end;
- how many legs a chain has;
- the priority of direct chains;
- the earliest match;
- the round structure of the search;
- the walks and the network coordinates.

The source copies each route record before it cuts the coordinates, so no
candidate is ever changed. Routes and chains are values here (a `datatype`
and a sequence of them), so this holds by construction. What is proved
instead is provenance: every leg keeps its candidate's metadata and has a
contiguous piece of its coordinates.

Modules, one file each:

- `Routes` (`routes.dfy`): coordinates, routes, chains, and the leg and chain
  predicates.
- `Scan` (`scan.dfy`): the index scans: first index, all occurrences, first
  matching pair.
- `CombinatorSpec` (`combinator_spec.dfy`): slicing, direct chains, `Join`,
  `Connect`, the bounded `Search`, and `CompleteRoutes`.
- `Combinator` (`combinator.dfy`): the loops of `get_connected_routes` and
  `get_complete_routes`.
- `CombinatorLemmas` (`combinator_lemmas.dfy`) and `SearchLemmas`
  (`search_lemmas.dfy`): what the search guarantees.
- `Walk` (`walk.dfy`): the network coordinates and the two walks.
- `SearchExhausted` (`exhausted.dfy`): an input on which all five rounds
  pass without a result.
- `Directions` (`directions.dfy`): `has_missing_data` and the handler steps
  that tie everything together.

### Where the code and its description differ (the code is followed)

- The description asks that a pairing be rejected when the two chains share
  a route id. In the code that comparison is a `continue` in an inner loop,
  so it rejects nothing. The model keeps the no-op loop in `JoinPair`.
  `SelfJoinAccepted` proves that a route joined with itself, both legs
  carrying the same id, is returned. Chains are therefore not loop-free.
- A join keeps only the first leg of the right-hand chain (`route_b[0]`).
  The legs after it are dropped.
- When all five rounds pass without a result, `get_complete_routes` returns
  `None` rather than a list, and the handler turns that into an empty route
  list (`Directions.Directions`). `SearchExhausted.ApartRoutesRunOut` shows
  that this happens: two candidates that share no coordinate, boarding on
  one and alighting on the other. When a frontier empties, the search returns
  the empty list of that round instead.

## Model

| member | source | states |
|---|---|---|
| Directions.HasMissingData | src/api/api.py:53-58 | the result is true exactly when some entry of the required list is absent |
| Directions.BadRequestExactly | src/api/api.py:345-348 | the handler refuses the request exactly when origin, destination or route area is absent |
| Directions.GetDirections | src/api/api.py:345-469 | the handler steps compute `Directions`: bad request, empty answer when a walk is missing, otherwise both walks and the routes, with a missing search result turned into `[]` |
| Directions.NoBoardingPoint | src/api/api.py:436-457 | a complete request is answered, not refused; the walks are empty exactly when no path coordinate lies on a candidate route; the two walks are empty together, and the routes are then empty too |
| Directions.DirectionsWalks | src/api/api.py:436-457 | for a complete request with non-empty walks: the start walk is a path prefix ending at its first coordinate on a route; the end walk is a path suffix starting at its last one; the coordinates walked past lie on no route; boarding comes no later than alighting |
| Directions.DirectionsRoutes | src/api/api.py:459-469 | for a complete request with non-empty walks, every returned chain begins at the boarding point, has meeting legs that are slices of candidates and one to four legs; chains of at most two legs end at the alighting point |
| Directions.WalksOnRoutes | src/api/api.py:401-449 | the walks end and begin on a candidate route, and the path coordinates before the boarding point and after the alighting point lie on none |
| Walk.AddNew | src/api/api.py:416-419 | appends to `acc` exactly the coordinates of `cs` it lacks, keeping `acc` as a prefix and keeping it free of duplicates |
| Walk.NetworkCoords | src/api/api.py:401-419 | the network coordinates hold no duplicates |
| Walk.NetworkCoordsMembers | src/api/api.py:401-419 | a coordinate is in the network exactly when it lies on some candidate route |
| Walk.CollectNetworkCoords | src/api/api.py:401-419 | the nested collection loop computes `NetworkCoords` |
| Walk.StartWalk | src/api/api.py:438-443 | none exactly when no path coordinate is in the network; otherwise a non-empty path prefix whose last coordinate is the first one in the network |
| Walk.EndWalk | src/api/api.py:445-449 | none exactly when no path coordinate is in the network; otherwise a non-empty path suffix whose first coordinate is the last one in the network |
| Walk.FindStartWalk | src/api/api.py:438-443 | the forward scan with its early exit computes `StartWalk` |
| Walk.FindEndWalk | src/api/api.py:445-449 | the backward scan with its early exit computes `EndWalk` |
| Walk.WalksOrdered | src/api/api.py:436-457 | the two walks exist together, and the boarding index is at most the alighting index |
| Scan.FirstIndex | src/api/api.py:499-504 | none exactly when `x` is absent; otherwise the index of the first occurrence |
| Scan.FirstIndexIs | src/api/api.py:499-504 | an index holding `x` with no earlier `x` is the one `FirstIndex` finds |
| Scan.Occurrences | src/api/api.py:483-494 | all indices below `n` holding `x`, each holding `x`, in strictly increasing order |
| Scan.FirstMatch | src/api/api.py:558-564 | none exactly when no element of `xs` is in `ys`; otherwise the smallest `i` whose element is in `ys`, and for it the smallest `j` |
| Scan.FirstMatchIs | src/api/api.py:558-564 | a pair meeting that description is the one `FirstMatch` finds |
| CombinatorLemmas.StartSlicesExact | src/api/api.py:483-488 | the start entries of a route are one copy per occurrence of `start`, in index order, each with coords from that index on |
| CombinatorLemmas.EndSlicesExact | src/api/api.py:483-494 | the end entries are one copy per occurrence of `end`, in index order, each with coords up to and including that index |
| CombinatorLemmas.StartSlicesAreSlices | src/api/api.py:485-488 | every start entry of a route begins at `start` and is a slice of that route |
| CombinatorLemmas.EndSlicesAreSlices | src/api/api.py:490-494 | every end entry of a route finishes at `end` and is a slice of that route |
| CombinatorLemmas.StartRoutesAreSlices | src/api/api.py:483-488 | every start entry begins at `start` and is a slice of a candidate, metadata unchanged |
| CombinatorLemmas.EndRoutesAreSlices | src/api/api.py:483-494 | every end entry finishes at `end` and is a slice of a candidate, metadata unchanged |
| CombinatorLemmas.StartSlicesContain | src/api/api.py:485-488 | each occurrence of `start` in a route yields its start entry |
| CombinatorLemmas.StartRoutesContain | src/api/api.py:483-488 | each occurrence of `start` in any candidate yields its start entry |
| Combinator.SliceAtEndpoints | src/api/api.py:481-494 | the slicing loop builds exactly the start entries and the end entries |
| Combinator.FindDirectRoutes | src/api/api.py:496-504 | the direct-route loop with its `break` builds exactly the direct chains |
| CombinatorLemmas.DirectChainShape | src/api/api.py:499-504 | a direct chain is one leg; it begins at `start`, ends at the first `end` after it and is a slice of a candidate |
| CombinatorLemmas.DirectsShape | src/api/api.py:496-504 | every direct chain has that shape |
| CombinatorLemmas.DirectsNonEmpty | src/api/api.py:496-504 | a start entry passing through `end` gives at least one direct chain |
| CombinatorLemmas.DirectPriority | src/api/api.py:496-510 | if a candidate passes `start` and later `end`, the answer is the non-empty list of direct chains, all single-leg, and no search runs |
| CombinatorLemmas.NoStartNoRoutes | src/api/api.py:477-538 | when no candidate passes `start`, the answer is the empty list |
| CombinatorSpec.Join | src/api/api.py:556-578 | no join exactly when the two legs share no coordinate. A join has one more leg; it keeps all but the last leg of `a` and the metadata of both legs; it cuts the last leg of `a` to a non-empty prefix and the first leg of `b` to a non-empty infix ending where it ended; the two new legs meet |
| CombinatorSpec.JoinAt | src/api/api.py:556-578 | at the earliest shared pair `(i, j)` the join is `a[:-1]`, `a[-1]` cut to `[:i+1]`, then `b[0]` cut to `[j:]` |
| Combinator.JoinPair | src/api/api.py:549-581 | the id loop and the two nested scans with `break` flags compute `Join` |
| Combinator.JoinRow | src/api/api.py:547-581 | the loop over `group_b` for one chain computes the row of joins in `group_b` order |
| Combinator.GetConnectedRoutes | src/api/api.py:542-585 | the nested pairing loops compute `Connect`, in `group_a`-major order |
| CombinatorSpec.Connect | src/api/api.py:542-585 | every connected chain has at least two legs |
| CombinatorSpec.ConnectSnoc | src/api/api.py:546-581 | one more chain of `group_a` appends its row of joins |
| CombinatorSpec.RowSnoc | src/api/api.py:547-581 | one more chain of `group_b` appends its join, if any |
| CombinatorSpec.RowLengths | src/api/api.py:574-576 | every join of `a` has one leg more than `a` |
| CombinatorLemmas.ConnectAtMostOnePerPair | src/api/api.py:546-583 | each pair yields at most one chain, so there are at most `len(group_a) * len(group_b)` results |
| CombinatorLemmas.RowAtMostOne | src/api/api.py:547-583 | one chain of `group_a` yields at most one result per chain of `group_b` |
| CombinatorLemmas.ConnectMember | src/api/api.py:546-581 | every connected chain is the join of a pair from the two groups |
| CombinatorLemmas.SelfJoinAccepted | src/api/api.py:551-554 | the id comparison rejects nothing: a route joined with itself gives its first coordinate followed by the whole route |
| CombinatorSpec.Singletons | src/api/api.py:514-518 | each route becomes a one-leg chain, in order |
| Combinator.SearchRounds | src/api/api.py:520-538 | the `for i in range(5)` loop computes `Search` from round 0 |
| Combinator.GetCompleteRoutes | src/api/api.py:477-538 | the whole function computes `CompleteRoutes`: the direct chains if any, otherwise the bounded search over one-leg frontiers |
| SearchLemmas.SearchEvenRound | src/api/api.py:521-537 | an even round without joins extends the start frontier and stops with `[]` when a frontier is empty |
| SearchLemmas.SearchOddRound | src/api/api.py:521-537 | an odd round without joins extends the end frontier and stops with `[]` when a frontier is empty |
| SearchLemmas.JoinKeepsStart | src/api/api.py:562-578 | joining a chain that begins at `start` with meeting legs keeps both properties and adds one leg |
| SearchLemmas.JoinLegsOf | src/api/api.py:562-578 | joining keeps every leg a slice of a candidate |
| SearchLemmas.JoinEndsAt | src/api/api.py:562-578 | joining with a one-leg chain ending at `end` gives a chain ending at `end` |
| SearchLemmas.ConnectKeepsStart | src/api/api.py:542-585 | connecting a start frontier keeps every chain beginning at `start` with meeting legs |
| SearchLemmas.ConnectLengths | src/api/api.py:542-585 | connecting `n`-leg chains gives `n+1`-leg chains |
| SearchLemmas.ConnectKeepsLegs | src/api/api.py:542-585 | connecting keeps every leg a slice of a candidate |
| SearchLemmas.ConnectEndsAt | src/api/api.py:542-585 | connecting against one-leg chains ending at `end` gives chains ending at `end` |
| SearchLemmas.SearchStarts | src/api/api.py:520-538 | every chain the search returns begins at `start` and has meeting legs |
| SearchLemmas.SearchLengths | src/api/api.py:520-538 | from one-leg start chains, every chain the search returns has two to four legs |
| SearchLemmas.SearchLegs | src/api/api.py:520-538 | every leg of every returned chain is a slice of a candidate |
| SearchLemmas.SearchEnds | src/api/api.py:520-538 | returned chains of at most two legs end at `end`; they are found in round 0, before the end frontier grows |
| SearchLemmas.CompleteRoutesShape | src/api/api.py:477-538 | every chain returned begins at `start` and has meeting legs that are slices of candidates; it has one to four legs, and chains of at most two legs end at `end` |
| SearchExhausted.LegSide | src/api/api.py:483-494 | a slice of a candidate through a coordinate that only one candidate has lies entirely on that candidate |
| SearchExhausted.RowHas | src/api/api.py:547-581 | one joining pair in a row makes the row non-empty |
| SearchExhausted.ConnectHas | src/api/api.py:546-585 | one joining pair makes the result of `get_connected_routes` non-empty |
| SearchExhausted.ConnectApart | src/api/api.py:542-585 | frontiers whose meeting legs lie on routes sharing no coordinate give no connection |
| SearchExhausted.StartStep | src/api/api.py:530-531 | extending a start frontier on the side of `r1` against `r1` and `r2` gives a non-empty frontier still on that side |
| SearchExhausted.EndStep | src/api/api.py:532-533 | extending an end frontier on the side of `r2` against `r1` and `r2` gives a non-empty frontier still on that side |
| SearchExhausted.RunOutRound | src/api/api.py:520-537 | one round on the two sides finds nothing, extends a frontier, and goes on to the next round |
| SearchExhausted.SearchRunsOut | src/api/api.py:520-538 | from frontiers on the two sides, all five rounds pass and the search falls through with `None` |
| SearchExhausted.StartEntriesWithin | src/api/api.py:483-488 | the start entries at the first coordinate of `r1` exist and all lie on `r1` |
| SearchExhausted.EndEntriesWithin | src/api/api.py:483-494 | the end entries at the last coordinate of `r2` exist and all lie on `r2` |
| SearchExhausted.SingletonFrontiers | src/api/api.py:514-516 | one-leg frontiers of entries on one route begin and end on it |
| SearchExhausted.NoDirects | src/api/api.py:496-504 | start entries that miss `end` give no direct chain |
| SearchExhausted.ApartRoutesRunOut | src/api/api.py:477-538 | for two routes sharing no coordinate, boarding at the first coordinate of one and alighting at the last coordinate of the other, `get_complete_routes` returns `None` |

## Left out

- Flask routing, JWT issuing and checking, and bcrypt hashing: these are
  framework and cryptography calls.
- MySQL access is left out: `execute_query` with its retry, `fetch_id_or_insert`, and the
  area and time-window query of `get_directions`. The candidate routes are
  an input of `Directions.GetDirections`, already decoded from the query
  rows (JSON decoding of the coords column is not modelled). The request
  clock is not modelled either.
- The street graph download, the nearest-node lookup and the shortest path
  come from osmnx and networkx. The street path is an input sequence of
  coordinates.
- `get_distance` (haversine) and `get_center` are floating-point geometry.
  Coordinates are pairs of reals that are only compared for equality.
- The keep-alive scheduler and pings, which are background threads and
  network I/O.
- The Kivy client and `api/main.py`: user interface and plain database
  CRUD.
- The JSON response encoding: `Directions.Response` carries the three
  arrays, or the bad-request outcome.
- CombinatorSpec.Join: its contract says the kept part of `b[0]` is a
  non-empty infix with the same last coordinate, not the exact suffix
  `[j:]`. The exact value is stated by `CombinatorSpec.JoinAt` at the
  earliest pair, and the method `Combinator.JoinPair` is proved equal to
  the function itself.
- SearchLemmas.SearchEnds: it does not claim that chains of three or four
  legs end at `end`. A join keeps only the first leg of an end-frontier
  chain, so once the end frontier has grown, returned chains can stop short
  of `end`. That is the behaviour of the code.
