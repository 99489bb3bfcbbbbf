/** What the route-combination search guarantees, proved about the
    functions of module CombinatorSpec. */
module CombinatorLemmas {
  import opened Routes
  import opened Scan
  import opened CombinatorSpec

  // ---------------------------------------------------------------------
  // Frontier slicing

  /** The start entries of a route are exactly one copy per occurrence of
      `start`, in index order, each cut to begin at that occurrence. */
  lemma {:induction false} StartSlicesExact(r: Route, start: Coord, n: nat)
    requires n <= |r.coords|
    ensures var occ := Occurrences(r.coords, start, n);
      && |StartSlices(r, start, n)| == |occ|
      && forall m :: 0 <= m < |occ| ==> StartSlices(r, start, n)[m] == r.(coords := r.coords[occ[m]..])
  {
    if n > 0 {
      StartSlicesExact(r, start, n - 1);
    }
  }

  /** The end entries of a route are exactly one copy per occurrence of
      `end`, in index order, each cut to finish at that occurrence. */
  lemma {:induction false} EndSlicesExact(r: Route, end: Coord, n: nat)
    requires n <= |r.coords|
    ensures var occ := Occurrences(r.coords, end, n);
      && |EndSlices(r, end, n)| == |occ|
      && forall m :: 0 <= m < |occ| ==> EndSlices(r, end, n)[m] == r.(coords := r.coords[..occ[m] + 1])
  {
    if n > 0 {
      EndSlicesExact(r, end, n - 1);
      assert r.coords[..(n - 1) + 1] == r.coords[..n];
    }
  }

  /** A slice of a route of a prefix of `pool` is a leg of `pool`. */
  lemma LegOfPrefix(leg: Route, pool: seq<Route>, n: nat)
    requires n <= |pool| && LegOf(leg, pool[..n])
    ensures LegOf(leg, pool)
  {
    var k :| 0 <= k < n && SliceOf(leg, pool[..n][k]);
    assert pool[..n][k] == pool[k];
  }

  /** Each start entry of `r` begins at `start` and is a slice of `r`. */
  lemma {:induction false} StartSlicesAreSlices(r: Route, start: Coord, n: nat)
    requires n <= |r.coords|
    ensures forall m :: 0 <= m < |StartSlices(r, start, n)| ==>
      var e := StartSlices(r, start, n)[m];
      |e.coords| > 0 && e.coords[0] == start && SliceOf(e, r)
  {
    if n > 0 {
      StartSlicesAreSlices(r, start, n - 1);
      if r.coords[n - 1] == start {
        var e := r.(coords := r.coords[n - 1..]);
        assert e.coords == r.coords[n - 1..|r.coords|];
        assert SliceOf(e, r);
      }
    }
  }

  /** Each end entry of `r` finishes at `end` and is a slice of `r`. */
  lemma {:induction false} EndSlicesAreSlices(r: Route, end: Coord, n: nat)
    requires n <= |r.coords|
    ensures forall m :: 0 <= m < |EndSlices(r, end, n)| ==>
      var e := EndSlices(r, end, n)[m];
      |e.coords| > 0 && Last(e.coords) == end && SliceOf(e, r)
  {
    if n > 0 {
      EndSlicesAreSlices(r, end, n - 1);
      if r.coords[n - 1] == end {
        var e := r.(coords := r.coords[..n]);
        assert e.coords == r.coords[0..n];
        assert SliceOf(e, r);
      }
    }
  }

  /** Every start entry begins at `start` and is a slice of a candidate. */
  lemma {:induction false} StartRoutesAreSlices(cands: seq<Route>, start: Coord)
    ensures forall m :: 0 <= m < |StartRoutes(cands, start)| ==>
      var e := StartRoutes(cands, start)[m];
      |e.coords| > 0 && e.coords[0] == start && LegOf(e, cands)
  {
    if |cands| > 0 {
      var n := |cands| - 1;
      var r := cands[n];
      var prev := StartRoutes(cands[..n], start);
      var last := StartSlices(r, start, |r.coords|);
      StartRoutesAreSlices(cands[..n], start);
      StartSlicesAreSlices(r, start, |r.coords|);
      var all: seq<Route> := prev + last;
      forall m | 0 <= m < |all|
        ensures var e := all[m];
          |e.coords| > 0 && e.coords[0] == start && LegOf(e, cands)
      {
        if m < |prev| {
          LegOfPrefix(prev[m], cands, n);
        } else {
          assert SliceOf(last[m - |prev|], cands[n]);
        }
      }
    }
  }

  /** Every end entry finishes at `end` and is a slice of a candidate. */
  lemma {:induction false} EndRoutesAreSlices(cands: seq<Route>, end: Coord)
    ensures forall m :: 0 <= m < |EndRoutes(cands, end)| ==>
      var e := EndRoutes(cands, end)[m];
      |e.coords| > 0 && Last(e.coords) == end && LegOf(e, cands)
  {
    if |cands| > 0 {
      var n := |cands| - 1;
      var r := cands[n];
      var prev := EndRoutes(cands[..n], end);
      var last := EndSlices(r, end, |r.coords|);
      EndRoutesAreSlices(cands[..n], end);
      EndSlicesAreSlices(r, end, |r.coords|);
      var all: seq<Route> := prev + last;
      forall m | 0 <= m < |all|
        ensures var e := all[m];
          |e.coords| > 0 && Last(e.coords) == end && LegOf(e, cands)
      {
        if m < |prev| {
          LegOfPrefix(prev[m], cands, n);
        } else {
          assert SliceOf(last[m - |prev|], cands[n]);
        }
      }
    }
  }

  /** Every occurrence of `start` below `n` yields its start entry. */
  lemma {:induction false} StartSlicesContain(r: Route, start: Coord, n: nat, i: nat)
    requires i < n <= |r.coords| && r.coords[i] == start
    ensures r.(coords := r.coords[i..]) in StartSlices(r, start, n)
  {
    if i < n - 1 {
      StartSlicesContain(r, start, n - 1, i);
    }
  }

  /** Every occurrence of `start` in a candidate yields its start entry. */
  lemma {:induction false} StartRoutesContain(cands: seq<Route>, start: Coord, k: nat, i: nat)
    requires k < |cands| && i < |cands[k].coords| && cands[k].coords[i] == start
    ensures cands[k].(coords := cands[k].coords[i..]) in StartRoutes(cands, start)
  {
    var n := |cands| - 1;
    var e := cands[k].(coords := cands[k].coords[i..]);
    var prev := StartRoutes(cands[..n], start);
    var last := StartSlices(cands[n], start, |cands[n].coords|);
    assert StartRoutes(cands, start) == prev + last;
    if k < n {
      assert cands[..n][k] == cands[k];
      StartRoutesContain(cands[..n], start, k, i);
      assert e in prev;
    } else {
      StartSlicesContain(cands[n], start, |cands[n].coords|, i);
      assert e in last;
    }
  }

  // ---------------------------------------------------------------------
  // Direct routes

  /** `c` is one leg that begins at `start`, ends at the first `end` on
      it, and is a slice of a candidate. */
  ghost predicate DirectShape(c: Chain, start: Coord, end: Coord, pool: seq<Route>) {
    && |c| == 1 && |c[0].coords| > 0
    && c[0].coords[0] == start && Last(c[0].coords) == end
    && end !in c[0].coords[..|c[0].coords| - 1]
    && LegOf(c[0], pool)
  }

  /** A start entry that reaches `end` gives a chain of that shape. */
  lemma DirectChainShape(sr: Route, start: Coord, end: Coord, pool: seq<Route>)
    requires |sr.coords| > 0 && sr.coords[0] == start && LegOf(sr, pool)
    requires DirectChain(sr, end).Some?
    ensures DirectShape(DirectChain(sr, end).value, start, end, pool)
  {
    var i := FirstIndex(sr.coords, end).value;
    var leg := sr.(coords := sr.coords[..i + 1]);
    assert leg.coords[..|leg.coords| - 1] == sr.coords[..i];
    ResliceLeg(sr, pool, 0, i + 1);
    assert sr.coords[0..i + 1] == leg.coords;
  }

  /** Each direct chain is one leg that begins at `start`, ends at the
      first `end` of its start entry, and is a slice of a candidate. */
  lemma {:induction false} DirectsShape(srs: seq<Route>, start: Coord, end: Coord, pool: seq<Route>)
    requires forall e :: e in srs ==> |e.coords| > 0 && e.coords[0] == start && LegOf(e, pool)
    ensures forall c :: c in Directs(srs, end) ==> DirectShape(c, start, end, pool)
  {
    if |srs| > 0 {
      var n := |srs| - 1;
      assert forall e :: e in srs[..n] ==> e in srs;
      DirectsShape(srs[..n], start, end, pool);
      var sr := srs[n];
      assert Directs(srs, end) == Directs(srs[..n], end) + OptionToSeq(DirectChain(sr, end));
      if DirectChain(sr, end).Some? {
        assert sr in srs;
        DirectChainShape(sr, start, end, pool);
      }
    }
  }

  /** A start entry that reaches `end` gives a direct chain. */
  lemma {:induction false} DirectsNonEmpty(srs: seq<Route>, end: Coord, s: nat)
    requires s < |srs| && end in srs[s].coords
    ensures |Directs(srs, end)| > 0
  {
    var n := |srs| - 1;
    if s < n {
      DirectsNonEmpty(srs[..n], end, s);
    }
  }

  /** Direct-route priority: when a candidate passes `start` and later
      `end`, the answer is the list of direct chains, all single-leg; no
      multi-leg search result is returned beside them. */
  lemma DirectPriority(cands: seq<Route>, start: Coord, end: Coord, k: nat, i: nat, j: nat)
    requires k < |cands| && i <= j < |cands[k].coords|
    requires cands[k].coords[i] == start && cands[k].coords[j] == end
    ensures CompleteRoutes(cands, start, end) == Some(Directs(StartRoutes(cands, start), end))
    ensures |Directs(StartRoutes(cands, start), end)| > 0
    ensures forall c :: c in Directs(StartRoutes(cands, start), end) ==> |c| == 1
  {
    var srs := StartRoutes(cands, start);
    var sr := cands[k].(coords := cands[k].coords[i..]);
    StartRoutesContain(cands, start, k, i);
    var s :| 0 <= s < |srs| && srs[s] == sr;
    assert sr.coords[j - i] == end;
    DirectsNonEmpty(srs, end, s);
    StartRoutesAreSlices(cands, start);
    DirectsShape(srs, start, end, cands);
  }

  // ---------------------------------------------------------------------
  // Joining chains

  /** Each pair yields at most one chain. */
  lemma {:induction false} ConnectAtMostOnePerPair(groupA: seq<Chain>, groupB: seq<Chain>)
    requires NonEmptyChains(groupA) && NonEmptyChains(groupB)
    ensures |Connect(groupA, groupB)| <= |groupA| * |groupB|
  {
    if |groupA| > 0 {
      var n := |groupA| - 1;
      var prev := Connect(groupA[..n], groupB);
      var row := ConnectRow(Last(groupA), groupB);
      assert Connect(groupA, groupB) == prev + row;
      ConnectAtMostOnePerPair(groupA[..n], groupB);
      RowAtMostOne(Last(groupA), groupB);
      CountStep(n, |groupB|, |prev|, |row|);
    }
  }

  lemma CountStep(n: nat, m: nat, p: nat, q: nat)
    requires p <= n * m && q <= m
    ensures p + q <= (n + 1) * m
  {
  }

  lemma {:induction false} RowAtMostOne(a: Chain, group: seq<Chain>)
    requires |a| > 0 && NonEmptyChains(group)
    ensures |ConnectRow(a, group)| <= |group|
  {
    if |group| > 0 {
      RowAtMostOne(a, group[..|group| - 1]);
    }
  }

  /** The candidate of `group` whose join with `a` gave chain `k` of the row. */
  lemma {:induction false} RowPair(a: Chain, group: seq<Chain>, k: nat) returns (y: nat)
    requires |a| > 0 && NonEmptyChains(group) && k < |ConnectRow(a, group)|
    ensures y < |group| && Join(a, group[y]) == Some(ConnectRow(a, group)[k])
  {
    var n := |group| - 1;
    var prev := ConnectRow(a, group[..n]);
    var last := OptionToSeq(Join(a, group[n]));
    assert ConnectRow(a, group) == prev + last;
    if k < |prev| {
      y := RowPair(a, group[..n], k);
      assert group[..n][y] == group[y];
      assert (prev + last)[k] == prev[k];
    } else {
      y := n;
      assert (prev + last)[k] == last[0];
    }
  }

  /** The pair of the two groups whose join gave connected chain `k`. */
  lemma {:induction false} ConnectPair(groupA: seq<Chain>, groupB: seq<Chain>, k: nat)
    returns (x: nat, y: nat)
    requires NonEmptyChains(groupA) && NonEmptyChains(groupB) && k < |Connect(groupA, groupB)|
    ensures x < |groupA| && y < |groupB|
    ensures Join(groupA[x], groupB[y]) == Some(Connect(groupA, groupB)[k])
  {
    var n := |groupA| - 1;
    var prev := Connect(groupA[..n], groupB);
    var row := ConnectRow(groupA[n], groupB);
    assert Connect(groupA, groupB) == prev + row;
    if k < |prev| {
      x, y := ConnectPair(groupA[..n], groupB, k);
      assert groupA[..n][x] == groupA[x];
      assert (prev + row)[k] == prev[k];
    } else {
      x := n;
      y := RowPair(groupA[n], groupB, k - |prev|);
      assert (prev + row)[k] == row[k - |prev|];
    }
  }

  /** Every connected chain is the join of some pair of the two groups. */
  lemma ConnectMember(groupA: seq<Chain>, groupB: seq<Chain>, k: nat)
    requires NonEmptyChains(groupA) && NonEmptyChains(groupB) && k < |Connect(groupA, groupB)|
    ensures exists x, y ::
      && 0 <= x < |groupA| && 0 <= y < |groupB|
      && Join(groupA[x], groupB[y]) == Some(Connect(groupA, groupB)[k])
  {
    var x, y := ConnectPair(groupA, groupB, k);
  }

  /** The id comparison rejects nothing: a route joined with itself, so
      that both legs carry the same id, is still returned. */
  lemma SelfJoinAccepted(r: Route)
    requires |r.coords| > 0
    ensures Connect([[r]], [[r]]) == [[r.(coords := [r.coords[0]]), r]]
  {
    var joined := SelfJoin(r);
    assert [[r]][..0] == [];
    assert ConnectRow([r], [[r]]) == ConnectRow([r], []) + [joined];
    assert Connect([[r]], [[r]]) == Connect([], [[r]]) + [joined];
  }

  /** A one-leg chain joins itself at its first coordinate. */
  lemma SelfJoin(r: Route) returns (joined: Chain)
    requires |r.coords| > 0
    ensures joined == [r.(coords := [r.coords[0]]), r] && Join([r], [r]) == Some(joined)
  {
    joined := [r.(coords := [r.coords[0]]), r];
    JoinAt([r], [r], 0, 0);
    assert r.coords[..1] == [r.coords[0]];
    assert r.coords[0..] == r.coords;
    assert [r][..0] + [r.(coords := r.coords[..1])] + [r.(coords := r.coords[0..])] == joined;
  }

  /** When no candidate passes `start`, there are no start entries and the
      search stops in round 0 with the empty result. */
  lemma {:induction false} NoStartNoRoutes(cands: seq<Route>, start: Coord, end: Coord)
    requires forall k :: 0 <= k < |cands| ==> start !in cands[k].coords
    ensures CompleteRoutes(cands, start, end) == Some([])
  {
    NoStartEntries(cands, start);
  }

  lemma {:induction false} NoStartSlices(r: Route, start: Coord, n: nat)
    requires n <= |r.coords| && start !in r.coords
    ensures StartSlices(r, start, n) == []
  {
    if n > 0 {
      assert r.coords[n - 1] in r.coords;
      NoStartSlices(r, start, n - 1);
    }
  }

  lemma {:induction false} NoStartEntries(cands: seq<Route>, start: Coord)
    requires forall k :: 0 <= k < |cands| ==> start !in cands[k].coords
    ensures StartRoutes(cands, start) == []
  {
    if |cands| > 0 {
      var n := |cands| - 1;
      NoStartEntries(cands[..n], start);
      NoStartSlices(cands[n], start, |cands[n].coords|);
    }
  }
}
