/** The bounded search can run out: when the boarding point lies only on
    one candidate and the alighting point only on another, and the two
    share no coordinate, every round finds no join of the two frontiers
    while both frontiers keep growing, and after the fifth round
    `get_complete_routes` falls through with `None` (which the handler
    answers with an empty route list). */
module SearchExhausted {
  import opened Routes
  import opened Scan
  import opened CombinatorSpec
  import opened CombinatorLemmas

  // ---------------------------------------------------------------------
  // Where legs lie

  /** No coordinate of `xs` occurs in `ys`. */
  ghost predicate Apart(xs: seq<Coord>, ys: seq<Coord>) {
    forall c :: c in xs ==> c !in ys
  }

  /** `leg` is non-empty and all its coordinates occur in `cs`. */
  ghost predicate Within(leg: Route, cs: seq<Coord>) {
    |leg.coords| > 0 && forall c :: c in leg.coords ==> c in cs
  }

  /** A non-empty frontier whose chains all end with a leg within `cs`. */
  ghost predicate LastLegsWithin(g: seq<Chain>, cs: seq<Coord>) {
    |g| > 0 && forall k :: 0 <= k < |g| ==> |g[k]| > 0 && Within(Last(g[k]), cs)
  }

  /** A non-empty frontier whose chains all begin with a leg within `cs`. */
  ghost predicate FirstLegsWithin(g: seq<Chain>, cs: seq<Coord>) {
    |g| > 0 && forall k :: 0 <= k < |g| ==> |g[k]| > 0 && Within(g[k][0], cs)
  }

  lemma InfixWithin(xs: seq<Coord>, ys: seq<Coord>)
    requires IsInfix(xs, ys)
    ensures forall c :: c in xs ==> c in ys
  {
    var i, j :| 0 <= i <= j <= |ys| && xs == ys[i..j];
    forall c | c in xs
      ensures c in ys
    {
      var t :| 0 <= t < |xs| && xs[t] == c;
      assert ys[i + t] == c;
    }
  }

  /** A leg of `pool` through a coordinate found on `pool[home]` alone lies
      within `pool[home]`. */
  lemma LegSide(leg: Route, pool: seq<Route>, home: nat, c: Coord)
    requires LegOf(leg, pool) && home < |pool| && c in leg.coords && c in pool[home].coords
    requires forall k :: 0 <= k < |pool| && k != home ==> c !in pool[k].coords
    ensures forall d :: d in leg.coords ==> d in pool[home].coords
  {
    var k :| 0 <= k < |pool| && SliceOf(leg, pool[k]);
    InfixWithin(leg.coords, pool[k].coords);
    assert c in pool[k].coords;
  }

  // ---------------------------------------------------------------------
  // Joins across and within the two sides

  /** Chains whose meeting legs lie on two apart coordinate lists do not join. */
  lemma ApartNoJoin(a: Chain, b: Chain, xs: seq<Coord>, ys: seq<Coord>)
    requires |a| > 0 && |b| > 0 && Apart(xs, ys)
    requires forall c :: c in Last(a).coords ==> c in xs
    requires forall c :: c in b[0].coords ==> c in ys
    ensures Join(a, b).None?
  {
  }

  /** One joining pair in the row makes the row non-empty. */
  lemma {:induction false} RowHas(a: Chain, group: seq<Chain>, y: nat)
    requires |a| > 0 && NonEmptyChains(group) && y < |group| && Join(a, group[y]).Some?
    ensures |ConnectRow(a, group)| > 0
  {
    var n := |group| - 1;
    RowSnoc(a, group, n);
    assert group[..n + 1] == group;
    if y < n {
      assert group[..n][y] == group[y];
      RowHas(a, group[..n], y);
    } else {
      assert y == n;
      assert |OptionToSeq(Join(a, group[n]))| == 1;
    }
  }

  /** One joining pair makes `get_connected_routes` non-empty. */
  lemma {:induction false} ConnectHas(groupA: seq<Chain>, groupB: seq<Chain>, x: nat, y: nat)
    requires NonEmptyChains(groupA) && NonEmptyChains(groupB)
    requires x < |groupA| && y < |groupB| && Join(groupA[x], groupB[y]).Some?
    ensures |Connect(groupA, groupB)| > 0
  {
    var n := |groupA| - 1;
    ConnectSnoc(groupA, groupB, n);
    assert groupA[..n + 1] == groupA;
    if x < n {
      assert groupA[..n][x] == groupA[x];
      ConnectHas(groupA[..n], groupB, x, y);
    } else {
      assert x == n;
      RowHas(groupA[n], groupB, y);
    }
  }

  /** Frontiers on two apart sides never connect. */
  lemma ConnectApart(s: seq<Chain>, e: seq<Chain>, xs: seq<Coord>, ys: seq<Coord>)
    requires LastLegsWithin(s, xs) && FirstLegsWithin(e, ys) && Apart(xs, ys)
    ensures Connect(s, e) == []
  {
    if |Connect(s, e)| > 0 {
      var x, y := ConnectPair(s, e, 0);
      ApartNoJoin(s[x], e[y], xs, ys);
      assert false;
    }
  }

  /** Extending a start frontier on the side of `r1` against the network of
      `r1` and `r2` keeps it non-empty and on the side of `r1`. */
  lemma StartStep(s: seq<Chain>, r1: Route, r2: Route)
    requires LastLegsWithin(s, r1.coords) && Apart(r1.coords, r2.coords)
    ensures NonEmptyChains([[r1], [r2]])
    ensures LastLegsWithin(Connect(s, [[r1], [r2]]), r1.coords)
  {
    var full := [[r1], [r2]];
    var next := Connect(s, full);
    forall k | 0 <= k < |next|
      ensures |next[k]| > 0 && Within(Last(next[k]), r1.coords)
    {
      var x, y := ConnectPair(s, full, k);
      assert y == 0;
      assert Join(s[x], [r1]) == Some(next[k]);
      assert Last(next[k]) == next[k][|s[x]|];
      InfixWithin(Last(next[k]).coords, r1.coords);
    }
    var first := Last(s[0]).coords[0];
    assert first in Last(s[0]).coords;
    assert first in full[0][0].coords;
    ConnectHas(s, full, 0, 0);
  }

  /** Extending an end frontier on the side of `r2` against the network of
      `r1` and `r2` keeps it non-empty and on the side of `r2`. */
  lemma EndStep(e: seq<Chain>, r1: Route, r2: Route)
    requires FirstLegsWithin(e, r2.coords) && Apart(r1.coords, r2.coords)
    ensures NonEmptyChains([[r1], [r2]])
    ensures FirstLegsWithin(Connect([[r1], [r2]], e), r2.coords)
  {
    var full := [[r1], [r2]];
    var next := Connect(full, e);
    forall k | 0 <= k < |next|
      ensures |next[k]| > 0 && Within(next[k][0], r2.coords)
    {
      var x, y := ConnectPair(full, e, k);
      assert x == 1;
      assert Join([r2], e[y]) == Some(next[k]);
      var kept := next[k][0].coords;
      assert kept == r2.coords[..|kept|];
      assert IsInfix(kept, r2.coords) by {
        assert kept == r2.coords[0..|kept|];
      }
      InfixWithin(kept, r2.coords);
    }
    var first := e[0][0].coords[0];
    assert first in e[0][0].coords;
    assert first in Last(full[1]).coords;
    ConnectHas(full, e, 1, 0);
  }

  // ---------------------------------------------------------------------
  // The search runs out

  /** Frontiers on the two sides of apart routes `r1` and `r2` make every
      round of the search extend without finding a join, so the search
      falls through after its last round. */
  lemma SearchRunsOut(s0: seq<Chain>, e0: seq<Chain>, r1: Route, r2: Route)
    requires LastLegsWithin(s0, r1.coords) && FirstLegsWithin(e0, r2.coords)
    requires Apart(r1.coords, r2.coords)
    ensures NonEmptyChains(s0) && NonEmptyChains(e0) && NonEmptyChains([[r1], [r2]])
    ensures Search(s0, e0, [[r1], [r2]], 0) == None
  {
    var full := [[r1], [r2]];
    var s, e, i := s0, e0, 0;
    while i < Rounds
      invariant i <= Rounds
      invariant LastLegsWithin(s, r1.coords) && FirstLegsWithin(e, r2.coords)
      invariant NonEmptyChains(s) && NonEmptyChains(e) && NonEmptyChains(full)
      invariant Search(s, e, full, i) == Search(s0, e0, full, 0)
    {
      s, e := RunOutRound(s, e, r1, r2, i);
      i := i + 1;
    }
  }

  /** One round of `SearchRunsOut`. */
  lemma RunOutRound(s: seq<Chain>, e: seq<Chain>, r1: Route, r2: Route, i: nat)
    returns (s2: seq<Chain>, e2: seq<Chain>)
    requires i < Rounds
    requires LastLegsWithin(s, r1.coords) && FirstLegsWithin(e, r2.coords)
    requires Apart(r1.coords, r2.coords)
    ensures LastLegsWithin(s2, r1.coords) && FirstLegsWithin(e2, r2.coords)
    ensures NonEmptyChains(s) && NonEmptyChains(e) && NonEmptyChains([[r1], [r2]])
    ensures Search(s, e, [[r1], [r2]], i) == Search(s2, e2, [[r1], [r2]], i + 1)
  {
    var full := [[r1], [r2]];
    ConnectApart(s, e, r1.coords, r2.coords);
    StartStep(s, r1, r2);
    EndStep(e, r1, r2);
    if i % 2 == 0 {
      s2, e2 := Connect(s, full), e;
    } else {
      s2, e2 := s, Connect(full, e);
    }
  }

  /** No direct chain comes from start entries that miss `end`. */
  lemma {:induction false} NoDirects(srs: seq<Route>, end: Coord)
    requires forall m :: 0 <= m < |srs| ==> end !in srs[m].coords
    ensures Directs(srs, end) == []
  {
    if |srs| > 0 {
      var n := |srs| - 1;
      NoDirects(srs[..n], end);
    }
  }

  /** The start entries at the first coordinate of `r1` all lie within
      `r1`, and there is at least one. */
  lemma StartEntriesWithin(r1: Route, r2: Route)
    requires |r1.coords| > 0 && Apart(r1.coords, r2.coords)
    ensures var srs := StartRoutes([r1, r2], r1.coords[0]);
      |srs| > 0 && forall m :: 0 <= m < |srs| ==> Within(srs[m], r1.coords)
  {
    var cands, start := [r1, r2], r1.coords[0];
    var srs := StartRoutes(cands, start);
    StartRoutesAreSlices(cands, start);
    StartRoutesContain(cands, start, 0, 0);
    assert start in r1.coords;
    forall m | 0 <= m < |srs|
      ensures Within(srs[m], r1.coords)
    {
      assert srs[m].coords[0] in srs[m].coords;
      LegSide(srs[m], cands, 0, start);
    }
  }

  /** The end entries at the last coordinate of `r2` all lie within `r2`,
      and there is at least one. */
  lemma EndEntriesWithin(r1: Route, r2: Route)
    requires |r2.coords| > 0 && Apart(r1.coords, r2.coords)
    ensures var ers := EndRoutes([r1, r2], Last(r2.coords));
      |ers| > 0 && forall m :: 0 <= m < |ers| ==> Within(ers[m], r2.coords)
  {
    var cands, end := [r1, r2], Last(r2.coords);
    var ers := EndRoutes(cands, end);
    EndRoutesAreSlices(cands, end);
    assert end in r2.coords;
    forall m | 0 <= m < |ers|
      ensures Within(ers[m], r2.coords)
    {
      assert Last(ers[m].coords) in ers[m].coords;
      LegSide(ers[m], cands, 1, end);
    }
    assert cands[..1] == [r1];
    EndSlicesExact(r2, end, |r2.coords|);
    assert |r2.coords| - 1 in Occurrences(r2.coords, end, |r2.coords|);
  }

  /** One-leg chains of entries within `cs` begin and end within `cs`. */
  lemma SingletonFrontiers(rs: seq<Route>, cs: seq<Coord>)
    requires |rs| > 0 && forall m :: 0 <= m < |rs| ==> Within(rs[m], cs)
    ensures LastLegsWithin(Singletons(rs), cs) && FirstLegsWithin(Singletons(rs), cs)
  {
    var g := Singletons(rs);
    assert forall k :: 0 <= k < |g| ==> Last(g[k]) == g[k][0] == rs[k];
  }

  /** Boarding on the first coordinate of `r1` and alighting at the last
      coordinate of `r2`, two routes that share no coordinate: there is no
      direct route, the multi-leg search runs all five rounds without a
      join, and `get_complete_routes` returns `None`. */
  lemma ApartRoutesRunOut(r1: Route, r2: Route)
    requires |r1.coords| > 0 && |r2.coords| > 0 && Apart(r1.coords, r2.coords)
    ensures CompleteRoutes([r1, r2], r1.coords[0], Last(r2.coords)) == None
  {
    var cands, start, end := [r1, r2], r1.coords[0], Last(r2.coords);
    var srs, ers := StartRoutes(cands, start), EndRoutes(cands, end);
    StartEntriesWithin(r1, r2);
    EndEntriesWithin(r1, r2);
    assert end in r2.coords;
    forall m | 0 <= m < |srs|
      ensures end !in srs[m].coords
    {
    }
    NoDirects(srs, end);
    SingletonFrontiers(srs, r1.coords);
    SingletonFrontiers(ers, r2.coords);
    assert Singletons(cands) == [[r1], [r2]];
    SearchRunsOut(Singletons(srs), Singletons(ers), r1, r2);
  }
}
